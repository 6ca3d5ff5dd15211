# DWayland client replicas

DWayland wraps Wayland objects for Qt. Most classes forward requests, but a few keep a local copy of compositor state from an unbounded stream of events, and other code relies on that copy. This project models those classes and proves what every stream of events keeps.

Where the library updates an object in place, the model has a class with the same fields whose methods take the same branches. Each method is tied to a function on values, and the long-run properties are proved about that function, for all sequences of events.

- `Lists.dfy`: the few list operations that all replicas share.
- `Geometry.dfy`: sizes, points and rectangles.
- `WindowState.dfy`: window tracking as a transition system with one manager, its windows, any number of list models, and explicit connection lists, so that a signal is delivered slot by slot.
- `WindowInvariant.dfy`: every event keeps the invariant, and every signal fan-out amounts to one atomic change although the invariant is broken in between.
- `WindowRuns.dfy`: what holds after every run: which window is active, who is whose parent, what list models show and announce.
- `WindowRows.dfy`: the rows of a list model in closed form over the whole history.
- `WindowConnections.dfy`: how often a list model is connected to a window, and so how often it announces a change of it.
- `WindowLogs.dfy`: what a list model announces to its views on every event, signal by signal.
- `WindowTracking.dfy`: `PlasmaWindowManagement`, `PlasmaWindow` and `PlasmaWindowModel` as objects with emission loops. Every input is one step of the transition system.
- `OutputModes.dfy`: the mode list of `OutputDevice`, an erase-while-iterating loop against a closed form over the whole history.
- `OutputModesV2.dfy`: `OutputDeviceV2` with its `DeviceModeV2` objects.
- `Regions.dfy`: `Region` and the native region that its requests build.
- `OfferOwnership.dfy`: the offers of `DataDevice`.
- `Registry.dfy`: announced globals, lookups and version-clamped binding.
- `VirtualDesktops.dfy`: the ordered replica of virtual desktops.
- `DesktopMembership.dfy`: the virtual desktops of one window.
- `PipeReader.dfy`: `readData`, the retrying pipe reader.
- `ColorCurves.dfy`: colour curves as byte arrays.

What the client cannot see is an assumption on events: live names of globals are unique, an offer is named by the next enter or selection, the compositor never removes the last mode. It appears as a precondition or as a predicate on the history (`Enabled`, `Legal`, `Orderly`, `UniqueNames`, `Sensible`). Signals are ghost counters or ghost logs of the emitting object. The delayed creation of a window and its deferred deletion are events of their own.

What the proofs bring out about the code. Where it is a property the code does not have, the lemmas named say exactly when it fails, and show an input on which it does:

- The early return for an already active window in the manager's `activeChanged` slot is unreachable, whatever slots ran before it (`AlreadyActiveUnreachable`).
- A child whose parent is deleted while still mapped loses it without `parentWindowChanged`. This is the only silent change (`ParentChangesAreAnnounced`, `ParentCanVanishSilently`), and the ordinary deletion after the unmapping never causes it (`DeferredDeletionIsSilent`).
- A list model can show an unmapped window, exactly when the model was constructed between the unmapping and the deletion of that window and nothing removed it since (`UnmappedListedExactly`, `UnmappedCanBeListed`).
- A list model does not announce each change of a window once if it lists the window and never otherwise. It announces a change once for every time the window entered its rows since the window was created (`AnnouncementsExactly`). So it announces a window that it does not list, with an invalid index, exactly if it listed it before: from the unmapping to the deletion, or after a release (`InvalidIndexExactly`, `InvalidIndexIsAnnounced`). It announces changes more than once exactly if a release came while it listed the window, and the window, still mapped, announced its initial state later (`RepeatedExactly`, `RelaysCanRepeat`). Everything else is announced properly (`AnnouncedOnceExactly`).
- `geometry()` of an output with a current mode is a default rectangle only if that mode is 0 by 0 and the output sits at the origin, and then it is (`GeometryNullExactly`, `GeometryCanBeNull`).
- `OutputDeviceV2::currentMode()` need not be the object that the last current-mode event named, and its values need not stay those of the named one (`CurrentAgreesInValue`, `AgreementCanEnd`). They stay, until a mode is announced, another one is named or the named one is removed, exactly if the named object was already reported or its values differed from the reported ones (`AgreementLastsExactly`).
- `OutputDeviceV2::currentMode()` changes without `currentModeChanged` on exactly two kinds of events: the announcement of any mode, and the removal of the current one (`SilentChangesExactly`, `CurrentCanChangeSilently`).
- A second drag enter without a leave loses the first offer until the device is destroyed, and on runs on which the assertions hold nothing else loses an offer (`LostExactly`, `OfferCanBeLost`).
- `onAllDesktopsChanged` is emitted without a change in exactly two situations from protocol version 8, and in two others below it (`SpuriousExactly`, `SpuriousLeave`).
- A byte array of odd length is copied one byte past the end of the vector made for it, and no other is (`CopyFitsExactly`, `CopyCanOverrun`).

## Model

| member | source | states |
|---|---|---|
| WindowInvariant.SetParentSlots | src/client/plasmawindowmanagement.cpp:467-483 | after setParentWindow the child has one connection to the new usable parent, none to any other window, and all other connections are untouched |
| WindowInvariant.SetParentFamily | src/client/plasmawindowmanagement.cpp:467-483 | setting any parent keeps every child subscribed to exactly its own mapped parent |
| WindowInvariant.UnmapPrefix | src/client/plasmawindowmanagement.cpp:250-255 | after any prefix of the slots of an unmapped signal ran, exactly their targets have been updated, although slots disconnect themselves meanwhile |
| WindowInvariant.UnmapClearsChildren | src/client/plasmawindowmanagement.cpp:539-546 | unmapping a window takes it from every child with one parentWindowChanged each, leaves other parents alone, clears it as active window, and removes it from every model |
| WindowInvariant.StateChangedEffect | src/client/plasmawindowmanagement.cpp:694-701 | a changed active flag reaches the manager once and each model once for every time it connected to the window |
| WindowInvariant.DestroyedEffect | src/client/plasmawindowmanagement.cpp:243-249 | deleting a window removes it from the manager's list, as active window, from every model and from every parent link |
| WindowInvariant.StepKeepsInv | src/client/plasmawindowmanagement.cpp:234-268 | every event keeps the invariant: lists name what exists once, the active window is active, families are consistent, models agree with their views |
| WindowRuns.StepActive | src/client/plasmawindowmanagement.cpp:243-267 | activeWindowChanged is emitted exactly on the events on which activeWindow() changes |
| WindowRuns.WindowsExactly | src/client/plasmawindowmanagement.cpp:234-249 | on every run the manager lists the windows created and not deleted, in order of creation |
| WindowRuns.BoundExactly | src/client/plasmawindowmanagement.cpp:326-333 | the manager holds an interface exactly if it was set up and not released since |
| WindowRuns.ActiveWindowExactly | src/client/plasmawindowmanagement.cpp:256-267 | on every run activeWindow() is w exactly when w made the latest inactive-to-active transition and has not since gone inactive, been unmapped or been destroyed |
| WindowRuns.AlreadyActiveUnreachable | src/client/plasmawindowmanagement.cpp:257-260 | when the manager's slot gets its turn in the emission for a window that just became active, after any slots before it, that window is not the active one, so the early return is never taken |
| WindowRuns.ParentsAreMapped | src/client/plasmawindowmanagement.cpp:467-483 | at the end of every event no parent is unmapped and a child holds one subscription, to its parent's unmapped signal |
| WindowRuns.ParentChangesAreAnnounced | src/client/plasmawindowmanagement.cpp:480-482 | parentWindowChanged accompanies every change of the parent and nothing else, except that a parent deleted while mapped disappears silently |
| WindowRuns.StepParent | src/client/plasmawindowmanagement.cpp:467-483 | an event changes the parent of a window only by naming the window or the parent, and notifies once per change unless it is a deletion |
| WindowRuns.ParentExactly | src/client/plasmawindowmanagement.cpp:444-483 | on every run p is the parent of c exactly when the latest parent event of c named p while p was mapped, and since then neither p was unmapped or deleted nor c deleted |
| WindowRuns.ParentCanVanishSilently | src/client/plasmawindowmanagement.cpp:467-483 | a run on which a window loses its mapped parent without parentWindowChanged |
| WindowRuns.DeferredDeletionIsSilent | src/client/plasmawindowmanagement.cpp:543-545 | the deletion that follows an unmapping takes no parent away from any window |
| WindowRuns.StepRows | src/client/plasmawindowmodel.cpp:34-55 | a model's rows change by initial state, unmapping, deletion and release only, and a new model starts with all windows of the manager |
| WindowRuns.ModelsMirrorTheManager | src/client/plasmawindowmodel.cpp:40-52 | for any number of models, replaying the announced inserts, removes and resets gives the model's rows with every index in range, rows never repeat, and the manager lists them all |
| WindowRuns.UnmappedNeverReappears | src/client/plasmawindowmanagement.cpp:485-492 | a window that unmaps while a model exists never reappears in it, whatever events follow |
| WindowRuns.UnmappedListedExactly | src/client/plasmawindowmodel.cpp:182-184 | a model lists an unmapped window exactly when it was constructed after the unmapping and before the deletion, and nothing removed the window since |
| WindowRuns.UnmappedCanBeListed | src/client/plasmawindowmodel.cpp:182-184 | a run after which a model lists an unmapped window |
| WindowConnections.StepConnections | src/client/plasmawindowmodel.cpp:34-71 | an event connects a model to a window once, exactly if it offers an unlisted window, and only the deletion of the window takes connections away |
| WindowConnections.ConnectionsExactly | src/client/plasmawindowmodel.cpp:34-71 | on every run a model is connected to a window once for every event that put the window into its rows since the window was created |
| WindowConnections.ConnectedExactly | src/client/plasmawindowmodel.cpp:54-71 | on every run a model is connected to a window exactly if it listed the window at some moment since its creation |
| WindowConnections.RepeatedExactly | src/client/plasmawindowmodel.cpp:172-180 | a model is connected more than once exactly if a release of the bound manager came while it listed the window, and later the window, mapped and not deleted in between, announced its initial state |
| WindowConnections.AnnouncementsExactly | src/client/plasmawindowmodel.cpp:69-71 | a change of the active flag is announced with the window's row, or the invalid index if it is not listed, once for every time the window entered the rows since its creation |
| WindowConnections.AnnouncedOnceExactly | src/client/plasmawindowmodel.cpp:162-166 | a listed window is announced exactly once unless the model was reset and given it again, and an unlisted one not at all unless the model listed it before |
| WindowConnections.InvalidIndexExactly | src/client/plasmawindowmodel.cpp:162-166 | the invalid index is announced exactly if the model listed the window before and does not now |
| WindowConnections.InvalidIndexIsAnnounced | src/client/plasmawindowmanagement.cpp:539-546 | a run without a release after which a model announces a window it does not list |
| WindowLogs.AnnouncedExactly | src/client/plasmawindowmodel.cpp:34-71 | what each event makes a model announce: one removal of the row of a listed window that unmaps or is deleted, one insertion of a last row for a mapped unlisted window that announces its initial state, one reset on a release, a change of data per connection, else nothing |
| WindowLogs.NewModelAnnounces | src/client/plasmawindowmodel.cpp:182-184 | a new model announces one inserted row for each window of the manager, in order |
| WindowRuns.ResetRepeatsRelays | src/client/plasmawindowmodel.cpp:172-180 | after a release, a repeated initial state connects the model once more, so changes are announced once more than before |
| WindowRuns.RelaysCanRepeat | src/client/plasmawindowmodel.cpp:172-180 | a run after which a model is connected twice to the one window it lists |
| WindowRows.RowsExactly | src/client/plasmawindowmodel.cpp:34-55 | on every run a model's rows are the windows offered by its construction or by a later initial state and not unmapped, deleted or released since the offer, in the order of their earliest such offers |
| WindowTracking.PlasmaWindow.SetParentWindow | src/client/plasmawindowmanagement.cpp:467-483 | the in-place disconnect, connect and assignment are the SetParent step on all existing windows |
| WindowTracking.PlasmaWindowModel.AddWindow | src/client/plasmawindowmodel.cpp:34-55 | appends an unlisted window as a new last row, announces that row and connects, and otherwise does nothing |
| WindowTracking.PlasmaWindowModel.RemoveWindow | src/client/plasmawindowmodel.cpp:45-52 | removes the row of a listed window and announces it, and otherwise does nothing |
| WindowTracking.PlasmaWindowManagement.WindowCreated | src/client/plasmawindowmanagement.cpp:234-242 | a fresh window is listed last, inactive, mapped and without a parent |
| WindowTracking.PlasmaWindowManagement.StateChanged | src/client/plasmawindowmanagement.cpp:694-701 | a change of the active flag and its emission loop are one step |
| WindowTracking.PlasmaWindowManagement.ParentWindow | src/client/plasmawindowmanagement.cpp:444-453 | only a listed window becomes a parent |
| WindowTracking.PlasmaWindowManagement.UnmappedCallback | src/client/plasmawindowmanagement.cpp:539-546 | marking and the emission loop over the connections are one step |
| WindowTracking.PlasmaWindowManagement.Delete | src/client/plasmawindowmanagement.cpp:243-249 | the destroyed signal and the end of the object's pointers and connections are one step |
| WindowTracking.PlasmaWindowManagement.InitialStateCallback | src/client/plasmawindowmanagement.cpp:485-492 | a mapped window is offered to every model in subscription order |
| WindowTracking.PlasmaWindowManagement.CreateWindowModel | src/client/plasmawindowmodel.cpp:168-185 | a fresh model subscribes and takes over all listed windows |
| WindowTracking.PlasmaWindowManagement.Release | src/client/plasmawindowmanagement.cpp:326-333 | a bound manager resets every model and gives up its interface |
| WindowTracking.PlasmaWindowManagement.Dispatch | src/client/plasmawindowmanagement.cpp:234-268 | every input extends the run of the transition system that the objects have followed, so the theorems about runs hold of the objects |
| OutputModes.OutputDevice.AddMode | src/client/outputdevice.cpp:226-266 | the erase-while-iterating loop computes the other modes without their Current flags, then the new mode, with exactly the specified signals |
| OutputModes.ModesAreTheSurvivors | src/client/outputdevice.cpp:240-259 | after any events modes() is the events in arrival order without those superseded by a later Current event of the same size and refresh rate, with Current only on the last Current event |
| OutputModes.AtMostOneCurrent | src/client/outputdevice.cpp:245-248 | at most one listed mode is ever Current |
| OutputModes.CurrentModeIsTheLast | src/client/outputdevice.cpp:226-277 | currentMode() has the width, height, refresh rate, id and preferred bit of the last Current event, and is a default mode before the first |
| OutputModes.AnnouncedIs | src/client/outputdevice.cpp:226-238 | which argument and which flag bit of an event becomes which part of its mode |
| OutputModes.NewestIsLast | src/client/outputdevice.cpp:258-259 | the mode of the newest event is listed last, with the arguments of the event |
| OutputModes.SwitchSignals | src/client/outputdevice.cpp:245-265 | a Current event announces the mode that stops being current, without its flag, and then the new one, as changed exactly if its size and refresh rate were announced before |
| OutputModes.OtherSignals | src/client/outputdevice.cpp:258-265 | an event without the Current bit announces its mode as added, whether or not it was announced before |
| OutputModes.GeometryExactly | src/client/outputdevice.cpp:469-475 | geometry() is the position with the width and height of the last Current event, and a default rectangle before the first |
| OutputModes.GeometryNullExactly | src/client/outputdevice.cpp:469-475 | geometry() is a default rectangle exactly when no Current event arrived or the current mode is 0 by 0 at the origin |
| OutputModes.GeometryCanBeNull | src/client/outputdevice.cpp:469-475 | an event after which there is a current mode and geometry() is still a default rectangle |
| OutputModes.ListedAreTheAdded | src/client/outputdevice.cpp:249-265 | the size and refresh rate pairs of modes() are those of all modeAdded signals so far |
| OutputModes.ListedAreTheAnnounced | src/client/outputdevice.cpp:249-259 | a pair is listed exactly when some event announced it, so none is ever lost |
| OutputModes.OutputDevice.CurrentMode | src/client/outputdevice.cpp:268-277 | returns the first mode flagged Current, or a default mode |
| OutputModes.OutputDevice.Geometry | src/client/outputdevice.cpp:469-475 | returns position and current size unless the current mode equals a default one |
| OutputModesV2.CurrentIsListed | src/client/outputdevice_v2.cpp:231-257 | on every run with at least one mode event, currentMode() is a member of modes() |
| OutputModesV2.CurrentAgreesInValue | src/client/outputdevice_v2.cpp:211-222 | after a current-mode event the reported mode has the named values; it is the named object exactly when it was already or the values differed; the signal marks exactly a change |
| OutputModesV2.AgreementCanEnd | src/client/outputdevicemode_v2.cpp:105-108 | a run after which the reported mode differs in value from the one last named |
| OutputModesV2.AgreementLastsExactly | src/client/outputdevice_v2.cpp:211-222 | after a current-mode event the reported values stay those of the named mode, on every continuation without an announcement, another current-mode event or its removal, exactly if it was reported already or its values differed from the reported ones |
| OutputModesV2.SilentChangesExactly | src/client/outputdevice_v2.cpp:231-257 | currentMode() changes without currentModeChanged exactly on the announcement of a mode and on the removal of the current one, and the signal never comes without a change |
| OutputModesV2.CurrentCanChangeSilently | src/client/outputdevice_v2.cpp:231-250 | a run on which two announcements and a removal change currentMode() and no signal is emitted |
| OutputModesV2.AnnouncedIsCurrent | src/client/outputdevice_v2.cpp:231-236 | a newly announced mode is the current one |
| OutputModesV2.FallsBackToTheEarliest | src/client/outputdevice_v2.cpp:238-250 | when the current mode is removed, the earliest announced one still there takes its place |
| OutputModesV2.SizeExactly | src/client/outputdevicemode_v2.cpp:100-103 | on every run a listed mode has the size of its latest size event, or else an invalid one |
| OutputModesV2.RefreshExactly | src/client/outputdevicemode_v2.cpp:105-108 | it has the refresh rate of its latest refresh event, or else 60 Hz |
| OutputModesV2.PreferredExactly | src/client/outputdevicemode_v2.cpp:110-113 | it is preferred exactly if an event said so |
| OutputModesV2.ModesAreStanding | src/client/outputdevice_v2.cpp:231-250 | modes() is the announced and not removed modes in order of announcement |
| OutputModesV2.CurrentStays | src/client/outputdevice_v2.cpp:238-250 | the current mode stays current through property changes and removals of other modes |
| OutputModesV2.OutputDeviceV2.HandleRemoved | src/client/outputdevice_v2.cpp:238-250 | removing a mode keeps the rest in order and falls back to the first one if it was current |
| OutputModesV2.OutputDeviceV2.HandleCurrentMode | src/client/outputdevice_v2.cpp:211-222 | takes the named mode over unless it equals the reported one in value |
| Regions.ServerAddsAll | src/client/region.cpp:44-49 | adding rectangle by rectangle adds the whole area to the native region, however the area is split |
| Regions.ServerSubtractsAll | src/client/region.cpp:59-64 | subtracting rectangle by rectangle subtracts the whole area, however it is split |
| Regions.LastChangeDecides | src/client/region.cpp:99-121 | a point is in the region exactly when the last change touching it added it, or it was there initially and untouched |
| Regions.Region.Setup | src/client/region.cpp:87-92 | a new native region ends up equal to the local one, for every decomposition of it |
| Regions.Region.AddRegion | src/client/region.cpp:105-109 | both sides gain the area, one request per rectangle, and none is sent while unbound |
| Regions.Region.SubtractRegion | src/client/region.cpp:117-121 | both sides lose the area, one request per rectangle, and none is sent while unbound |
| Regions.Region.AddRect | src/client/region.cpp:99-103 | both sides gain the rectangle with one request |
| Regions.Region.SubtractRect | src/client/region.cpp:111-115 | both sides lose the rectangle with one request |
| OfferOwnership.StepKeepsInv | src/client/datadevice.cpp:61-139 | an offer is in at most one slot, never in a slot and deleted, and deleted at most once |
| OfferOwnership.AssertionsHoldExactly | src/client/datadevice.cpp:61-67 | the slot assertions hold throughout a run exactly when no offer is announced twice, between two announcements some event names the first offer, and every naming event follows its announcement with no announcement or naming in between |
| OfferOwnership.LostExactly | src/client/datadevice.cpp:82-105 | an offer is in no slot and not deleted exactly when a second enter took its drag slot before a leave |
| OfferOwnership.OfferCanBeLost | src/client/datadevice.cpp:82-89 | a run on which every assertion holds and a second enter loses the first offer |
| OfferOwnership.NothingIsLost | src/client/datadevice.h:112-112 | when leaves precede the next enter, every offer ever created is in exactly one slot or deleted |
| OfferOwnership.SelectionExactly | src/client/datadevice.cpp:128-139 | on every run the selection is the offer of the latest selection event, and none if that was empty |
| OfferOwnership.DeletedExactly | src/client/datadevice.cpp:98-139 | on every run the deleted offers are those whose selection a later selection event replaced, and those dragged in and left with no other enter in between |
| OfferOwnership.DataDevice.DragEnter | src/client/datadevice.cpp:82-89 | the pending offer moves to the drag slot |
| OfferOwnership.DataDevice.DragLeft | src/client/datadevice.cpp:98-105 | the dragged offer is deleted and the slot cleared |
| OfferOwnership.DataDevice.Selection | src/client/datadevice.cpp:128-139 | the old selection is deleted and the pending offer takes its place, or none does |
| OfferOwnership.DataDevice.Destruct | src/client/datadevice.cpp:160-166 | after the destructor every offer ever created has been deleted exactly once |
| Registry.ListIsTheLiveGlobals | src/client/registry.cpp:640-670 | with unique live names the list is the known announced and not removed globals in order of announcement |
| Registry.SignalsBalance | src/client/registry.cpp:640-670 | per interface, announced signals minus removed signals is the number of its entries, even if names clash |
| Registry.AnnouncementSignals | src/client/registry.cpp:640-654 | a global is announced once in general with its own arguments, and then once by the signal of its interface if it is supported |
| Registry.RemovalSignals | src/client/registry.cpp:656-670 | a removal is announced by the signal of the interface of the first entry of that name, if there is one, and then always once in general |
| Registry.InterfaceIsTheLastLive | src/client/registry.cpp:692-699 | interface(i) is the most recently announced global of the interface that is still there, and 0, 0 exactly when none is |
| Registry.UnknownExactly | src/client/registry.cpp:629-637 | a protocol name is unknown exactly when no supported interface has it |
| Registry.Registry.EmitAnnounced | src/client/registry.cpp:649-653 | a slot of the dedicated announced signal that binds a version up to the announced one sends the clamped request |
| Registry.BindExactly | src/client/registry.cpp:972-987 | with unique live names a bind gets through exactly when a global of that name is still there, has the interface, and was announced with at least the clamped version |
| Registry.ClampExactly | src/client/registry.cpp:728-732 | the version asked for is the greatest one that is at most the requested and at most the supported one, and 0 for an interface that is not supported |
| Registry.Registry.Bind | src/client/registry.cpp:972-987 | a bind request is sent, with the clamped version, exactly when an entry has the name, the interface and at least that version |
| Registry.Registry.HandleAnnounce | src/client/registry.cpp:640-654 | a known global is appended after the general and before the dedicated signal, an unknown one only signalled; a slot may bind while the dedicated signal is emitted |
| Registry.Registry.HandleRemove | src/client/registry.cpp:656-670 | the first entry of that name goes, with its dedicated signal, and the general signal always follows |
| Registry.Registry.Interfaces | src/client/registry.cpp:680-690 | all entries of an interface in list order |
| Registry.Registry.HasInterface | src/client/registry.cpp:672-678 | true exactly when the interface has an entry |
| VirtualDesktops.ReplicaIds | src/client/plasmavirtualdesktop.cpp:94-127 | on every run of sensible changes the client lists the compositor's ids in its order, the announced positions included |
| VirtualDesktops.InsertExactly | src/client/plasmavirtualdesktop.cpp:105-105 | inserting puts the element at the position and leaves the rest in order, and erasing that position undoes it |
| VirtualDesktops.LookupIsStable | src/client/plasmavirtualdesktop.cpp:213-241 | ids stay distinct and an id stands for one object exactly from its creation to its removal |
| VirtualDesktops.PlasmaVirtualDesktopManagement.RowsCallback | src/client/plasmavirtualdesktop.cpp:129-140 | takes over a row count other than zero and ignores zero, so that there is always at least one row |
| VirtualDesktops.PlasmaVirtualDesktopManagement.GetVirtualDesktop | src/client/plasmavirtualdesktop.cpp:213-241 | the listed object of a listed id, a new object each time for an unlisted one, none for the empty id |
| VirtualDesktops.PlasmaVirtualDesktopManagement.CreatedCallback | src/client/plasmavirtualdesktop.cpp:94-109 | a new desktop stands at the announced position, and those before and after it keep their order |
| VirtualDesktops.PlasmaVirtualDesktopManagement.RemovedCallback | src/client/plasmavirtualdesktop.cpp:111-127 | one desktop of that id is erased and the others keep their order |
| DesktopMembership.ListedExactly | src/client/plasmawindowmanagement.cpp:548-570 | a desktop is listed exactly when the latest event naming it was an enter |
| DesktopMembership.Multiplicity | src/client/plasmawindowmanagement.cpp:548-570 | a desktop is listed once for every enter since it last left |
| DesktopMembership.ListIsTheStandingEnters | src/client/plasmawindowmanagement.cpp:548-570 | the list is the desktops entered and not left since, in the order of the enters |
| DesktopMembership.OnAllExactly | src/client/plasmawindowmanagement.cpp:966-974 | below version 8 the latest state bit decides, and from version 8 a window is on all desktops exactly if no enter stands |
| DesktopMembership.EveryChangeIsAnnounced | src/client/plasmawindowmanagement.cpp:966-974 | every change of isOnAllDesktops() comes with onAllDesktopsChanged, at every protocol version |
| DesktopMembership.SpuriousExactly | src/client/plasmawindowmanagement.cpp:560-570 | the signal comes without a change exactly for a leave on an empty list or a change of the state bit from version 8, and for an enter on an empty list or a leave that empties it or finds it empty below |
| DesktopMembership.SpuriousLeave | src/client/plasmawindowmanagement.cpp:560-570 | a leave as the first event is announced although nothing changed |
| PipeReader.ReadOnce | src/client/plasmawindowmanagement.cpp:640-649 | the retry loop returns the first outcome that is not try-again, or gives up with the 1000th in a row |
| PipeReader.ReadData | src/client/plasmawindowmanagement.cpp:636-655 | terminates on every stream, returns 0 where it ends properly and -1 where reading gives up, and appends every byte delivered until then in order |
| PipeReader.ReadIcon | src/client/plasmawindowmanagement.cpp:668-679 | there is content exactly when the stream ends properly, and it is every byte before the end of file in order |
| PipeReader.OneEnd | src/client/plasmawindowmanagement.cpp:636-655 | there is one point at which reading stops, and it either ends properly or gives up there |
| PipeReader.Tolerance | src/client/plasmawindowmanagement.cpp:640-655 | any number of chunks with any pauses before them are read to the end exactly when an end of file follows and every pause is below 1000 try-again results, as pauses do not add up; the content is then all chunks in order, and otherwise reading gives up |
| ColorCurves.FillArray | src/client/outputconfiguration.cpp:178-183 | the byte array holds the memory of the vector, has even length and decodes to the vector |
| ColorCurves.EncodeAt | src/client/outputconfiguration.cpp:178-183 | the i-th value takes the i-th pair of bytes, the low byte first or last as on the host |
| ColorCurves.DecodeOfEncode | src/client/outputconfiguration.cpp:178-186 | curves of every length survive encoding and decoding |
| ColorCurves.EncodeOfCurve | src/client/outputdevice.cpp:347-353 | decoding and encoding a byte array keeps its whole 16-bit values, so it returns the array exactly when its length is even |
| ColorCurves.CopyFitsExactly | src/client/outputdevice.cpp:347-350 | the bytes copied fit the resized vector exactly if their number is even, and otherwise exceed it by one |
| ColorCurves.CopyCanOverrun | src/client/outputdevice.cpp:347-350 | a single byte is copied into an empty vector |
| ColorCurves.OutputDevice.ColorcurvesCallback | src/client/outputdevice.cpp:340-362 | for byte arrays of every length, colorCurvesChanged is emitted exactly when the decoded triple differs from the stored one, and one byte per odd length is copied past the end of a vector |

## Left out

- The other state flags, texts, icons, geometry and activities of a window: each is one guarded assignment with one signal, like the active flag.
- Timers, threads, event queues, the native proxies and failures to create one; a proxy is identified with its wrapper, and a window whose proxy the application released itself is not part of the model.
- Application slots that call back into the library while a signal is being delivered, and the deletion of a list model while its manager lives.
- `destroy()` of the window manager, which does not reset list models, and the stacking order and show-desktop state of the manager.
- `data`, `index` and `rowCount` of the list model, which only read the rows.
- Surfaces of a drag, drop and motion events, and the deletion of an offer by the application.
- A drag enter without an offer, creation of a listed or removal of an unlisted desktop, removal of the last mode: excluded by preconditions on events.
- Registry state across reconnections, and the `create` functions on top of `bind`.
- `OutputDevice` properties other than modes, position and colour curves, and the mode list of `Output`, which depends on iterator rules of the container.
- ColorCurves.OutputDevice.ColorcurvesCallback: the bytes copied past the end of a vector are counted, but not what memory they overwrite.
- Regions.Region.Setup: coordinates are unbounded integers, and the rectangles a QRegion iterates over are a parameter that may be any decomposition.
- Reads of a descriptor are replaced by a stream of outcomes that delivers nothing after a finite prefix; the pause between retries is not modelled.
