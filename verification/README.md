# Verified models of Solaris X and DRM sources

A Dafny model of the parts of this repository whose correctness spans many functions, with
proofs of what those parts are for.  `dafny verify dfyconfig.toml` checks everything.

## What is modelled

**Framebuffer lifetime (`drm_crtc.c`).**  `FbMachine` runs any number of threads through addfb,
getfb, dirtyfb, rmfb, file release, setplane, setcrtc and page flip; one step is one locked section or one
reference-count operation, and a thread's program counter says which locks and references it
holds.  `->set_config` is any answer that `DriverMay` allows: it may turn any CRTC off, and may
give only its target the requested framebuffer, position and mode.  `FbInvariant`,
`FbPreservation`, `FbSteps`, `FbSpecialSteps` and `FbCrtcSteps` carry the invariant through every
step, and `FbTheorems` draws the conclusions: exact reference counts, destruction only when
nothing refers to the object, no `BUG()`, viewports inside what is shown, and the soundness of the
last-holder shortcut.  `FbProgress` shows that no interleaving gets stuck: from every reachable state
a run of bounded length brings every ioctl to its end.  `ModeConfig` is the same code as methods of a class that update its fields
in place, loops included; each method records the states it goes through, and its `Valid()` says
that they are a run of the machine (`FbTrace`), so all that holds in reachable states holds of it.
`FbRequests` has the requests of user space and the tests that are made of them, and `FbSweep` what
taking framebuffers off the screen may do to CRTCs, planes and tables.

**Locks (`drm_crtc.c`).**  `LockOrder` proves that threads whose paths keep the order fbs_lock,
mode_config.mutex, CRTC mutexes, fb_lock, idr_mutex can neither wait in a circle nor all be stuck;
`LockPaths` gives the paths of every ioctl, destruction of a framebuffer included, and shows that
they keep it.

**Mode setting (`drm_crtc_helper.c`).**  `CrtcHelper` has CRTCs, encoders and connectors as heap
objects rewired in place by `drm_crtc_helper_set_config`: rollback from every failure point,
routing after success with its exact condition, and the cleanup of unused functions with its fixed points.  `HelperDriver`
shows that this function is a `->set_config` as the framebuffer machine assumes it.

**Format checks (`drm_crtc.c`).**  `FramebufferCheck` relates what `framebuffer_check` accepts to
where the samples of every plane lie.

**Game of Life (`life.c`).**  `Torus` has Conway's rule and the bytes that pack eight neighbours,
`Life` the nine stores of a birth or a death, `LifeSweep` the sweep over arrays with its delay
buffer; one sweep is one synchronous generation, on fields from one by one on.  `LifeFetch` says for
which sizes its fetches stay inside the array, `LifeShots` for which sizes the cells set by patterns
and by the shooter lie in the field.

**Screen capture (`multivis.c`, `xmag_multivis.c`).**  `WindowTree` compares the flattened window
list with the topmost window as the server shows it, `MultiVis` has the lists and the labelled image as they
are built, and `RepaintImage` the run-length painting with its cached graphics context.

**DMA buffers (`drm_bufs.c`).**  `Orders` has `drm_order`, `DmaLayout` the layout of the buffer list
as values, `DmaBuffers` the in-place code, `DmaGate` the interlock between adding and using buffers
over all interleavings.

**Authentication magics (`drm_auth.c`).**  `MagicTable` has sixteen linked lists with head and tail,
`AuthSteps` the ioctls on them, `AuthRuns` the token protocol over whole runs.

**Alias files (`installalias.c`).**  `AliasText` has the tokens, the pairs and the printed text as
values with the round trip, `AliasExact` and `AliasLists` its converse, by an account of the bytes
each token takes, for one pair and for files, and `AliasFile` the reader with its growing buffer and
its copies of 1024 bytes.

**Rockets (`pyro.c`).**  `Pyro` has the pool, the scans without a bounds test, and the two fuses.

`Options`, `Arith` and `CValues` hold the optional value, powers of two and facts about products, and
the limits and error numbers the C sources share.

## Where code and expectation part

* `framebuffer_check` masks the big-endian flag only in its first switch, and the size table has no
  entry for the formats of four bits a channel or for AYUV.  Such formats are accepted with a size
  of zero: `FramebufferCheck.NoSizeIff` says exactly which, and `FramebufferCheck.ZeroPitch` that a
  pitch of zero then passes.
* `drm_mode_setplane` shifts the framebuffer's size by sixteen bits in 32: of a framebuffer of 65536
  pixels or more only a part can be a plane's source (`FbRequests.SourceExactIff`).
* `drm_addbufs_sg` sums bytes in a C `int`.  The count stays exact exactly as long as each
  request's bytes fit (`DmaLayout.SoundIffFits`, `DmaLayout.RunSoundIff`), and `DmaLayout.LaidIff` says
  when the layout holds without it; `DmaLayout.Overlaps` gives a failing family and
  `DmaLayout.OverlapHappens` an instance.
* The magic sequence wraps at 32 bits.  Magics are fresh exactly while fewer than 2^32 have been
  issued (`AuthRuns.FreshIff`), and runs get that far (`AuthRuns.StaleReached`).
* `mvWalkTree` clips children to their parent's outer rectangle, border included, where the server
  clips them to the inside.  It picks the topmost window exactly where no border misleads it
  (`WindowTree.WalkIsTopIff`); `WindowTree.BorderMisleads` is a tree where one does.
* `drm_crtc_helper_set_config` rewires by encoder, so the last connector in the list that has an
  encoder decides for all of them.  After success the routing is as asked exactly when each connector
  that is not disconnected is on the same side of the request as the last one on its encoder
  (`CrtcHelper.Device.SetConfig`); `CrtcHelper.SharedEncoder` is a device where the call succeeds and
  the routing is wrong.
* After an error of `drm_crtc_helper_set_config`, links and every other CRTC are as before, but the
  restoring `drm_crtc_helper_set_mode` writes the target's `hwmode` again.  CRTCs are enabled exactly
  when an encoder in use points to them before and after every call, whatever its outcome; so the
  target comes back as it was exactly if no full mode set was due, or it is idle, or the restoring
  mode set is refused, or gives the same `hwmode` (`CrtcHelper.Device.SetConfig`).
  `CrtcHelper.HwmodeDiffers` is a call after which it does not.
* `ReadAliases` copies the font into 1024 bytes without a bound: it stays inside exactly when every
  font token is shorter (`AliasText.FitsIff`, `AliasText.OverrunHappens`).
* `ProcessAliasFile` quotes an alias only when it has a space in it and escapes nothing.  What it
  prints reads back exactly when every pair is printable (`AliasLists.RoundTripIff`): names in lower
  case, of less than 1024 bytes, without quote, backslash or newline, the alias not empty and with
  a tab only if it also has a space.
* The life field's array has one row of slack too few at the largest size only
  (`LifeFetch.LargestOverruns`).  The patterns all lie in the field exactly from 30 columns and 17 rows
  on (`LifeShots.PatternsFitIff`), and the shooter's cells exactly if either side has four cells or at
  least six (`LifeShots.ShotsInsideIff`); the program makes smaller fields too.

## Model

| member | source | states |
|---|---|---|
| FbTheorems.RefcountIsExact | open-src/kernel/drm/src/drm_crtc.c:357-579 | in every reachable state a live framebuffer's count is its registration, its place on a file's list, the CRTCs and planes showing it and the references of running ioctls; a dead one has none of these; inside the reference loop a CRTC counts with what it shows once the loop has passed it, and with what it showed before until then; no BUG() |
| FbTheorems.DestroyedOnlyWhenUnused | open-src/kernel/drm/src/drm_crtc.c:436-459 | a step that destroys a framebuffer leaves no id, list, CRTC, plane or ioctl referring to it |
| FbTheorems.StaysIffShown | open-src/kernel/drm/src/drm_crtc.c:542-579 | unregistered, unlisted, on no plane and in no ioctl, an object lives exactly as long as some CRTC shows it; inside the reference sweep, as long as a CRTC already passed shows it or one still to come showed it before |
| FbTheorems.ShownIsAliveAndFits | open-src/kernel/drm/src/drm_crtc.c:2062-2081 | at every moment, also inside the reference sweep, what a CRTC shows is alive, and the CRTC's position plus the mode's sides, swapped when inverted, stays within its width and height |
| FbTheorems.SweepClears | open-src/kernel/drm/src/drm_crtc.c:557-575 | when removal has swept, no plane shows the framebuffer, and no CRTC does if every set_config succeeded |
| FbTheorems.LastHolder | open-src/kernel/drm/src/drm_crtc.c:542-557 | a remover that holds the only reference holds something nothing else can reach |
| FbTheorems.LastHolderStays | open-src/kernel/drm/src/drm_crtc.c:542-557 | no step of any other thread raises the count, registers, lists, shows or holds it again, so skipping the sweep is sound |
| FbTheorems.OthersLeaveAlone | open-src/kernel/drm/src/drm_crtc.c:390-430 | other threads' steps do not touch an object out of reach |
| FbTheorems.ReachableIsGood | open-src/kernel/drm/src/drm_crtc.c:357-579 | the invariant holds in every reachable state of every interleaving |
| FbTheorems.InitIsGood | open-src/kernel/drm/src/drm_crtc.c:357-381 | an empty device satisfies the invariant |
| FbTheorems.NeverBug | open-src/kernel/drm/src/drm_crtc.c:452-461 | no step of any thread, in any interleaving, reaches BUG() or a destroyed object |
| FbProgress.NeverStuck | open-src/kernel/drm/src/drm_crtc.c:50-72 | in every reachable state with an unfinished ioctl some unfinished ioctl can take a step |
| FbProgress.CanComeToRest | open-src/kernel/drm/src/drm_crtc.c:50-72 | from every reachable state a run brings all ioctls to their end, in no more steps than the work left |
| FbProgress.SomeGoesOn | open-src/kernel/drm/src/drm_crtc.c:532-579 | some unfinished ioctl has a step that leaves less work, reference loops of removals and the objects still on lists included |
| FbProgress.ReleaserGoesOn | open-src/kernel/drm/src/drm_crtc.c:2676-2695 | each turn of the loop of drm_fb_release leaves less work |
| FbCrtcSteps.KeepNext | open-src/kernel/drm/src/drm_crtc.c:1816-1976 | every step of every thread keeps the invariant |
| FbSteps.ShownIsLive | open-src/kernel/drm/src/drm_crtc.c:1967-1973 | in any state of the invariant, the middle of a reference sweep included, what a CRTC shows is alive |
| FbSteps.ShownInDance | open-src/kernel/drm/src/drm_crtc.c:1955-1973 | during the sweep what a CRTC shows is referenced by the CRTC or by the caller of drm_mode_set_config_internal |
| FbSteps.EndOk | open-src/kernel/drm/src/drm_crtc.c:1967-1975 | after the sweep each CRTC's reference is to what it shows |
| FbSteps.KeepDanceRef | open-src/kernel/drm/src/drm_crtc.c:1967-1970 | referencing the new framebuffer keeps the invariant |
| FbCrtcSteps.KeepDanceUnref | open-src/kernel/drm/src/drm_crtc.c:1971-1972 | unreferencing the old framebuffer, which may destroy it, keeps the invariant |
| FbCrtcSteps.KeepCrtcCommit | open-src/kernel/drm/src/drm_crtc.c:2062-2144 | the viewport test and any lawful set_config keep the invariant |
| FbCrtcSteps.KeepSweepCrtc | open-src/kernel/drm/src/drm_crtc.c:559-570 | turning one CRTC off during removal keeps the invariant, whether set_config succeeds or not |
| FbCrtcSteps.KeepFlipCommit | open-src/kernel/drm/src/drm_crtc.c:3501-3574 | a page flip keeps the invariant, whether the driver accepts it or not |
| FbSpecialSteps.KeepFbCreate | open-src/kernel/drm/src/drm_crtc.c:357-381 | creation with its own reference and the id table's keeps the invariant |
| FbSpecialSteps.KeepFbListAdd | open-src/kernel/drm/src/drm_crtc.c:2308-2312 | handing the creation reference to the file's list keeps the invariant |
| FbSpecialSteps.KeepUnregister | open-src/kernel/drm/src/drm_crtc.c:464-474 | taking the id away never drops the last reference, so free_bug is out of reach from rmfb and release |
| FbSpecialSteps.KeepForceDisable | open-src/kernel/drm/src/drm_crtc.c:890-904 | a plane's reference dropped by force-disable is never the last |
| FbSpecialSteps.KeepPlaneUpdate | open-src/kernel/drm/src/drm_crtc.c:1916-1935 | setplane hands its reference to the plane, or gives it back, and keeps the invariant |
| ModeConfig.ModeConfig.AddFb | open-src/kernel/drm/src/drm_crtc.c:2275-2315 | succeeds exactly when the size is within the device's limits and the driver makes an object; object, id and list place then appear together, with two references; otherwise nothing changes |
| ModeConfig.ModeConfig.AddFb2 | open-src/kernel/drm/src/drm_crtc.c:2452-2495 | the same, with unknown flags refused and framebuffer_check passed |
| ModeConfig.ModeConfig.GetFb | open-src/kernel/drm/src/drm_crtc.c:2565-2591 | EINVAL for an id not registered, otherwise the answer of create_handle or ENODEV without it, and the size; every count is as it was |
| ModeConfig.ModeConfig.Lookup | open-src/kernel/drm/src/drm_crtc.c:416-430 | finds exactly what is in the id table, with one more reference |
| ModeConfig.ModeConfig.Unlist | open-src/kernel/drm/src/drm_crtc.c:2530-2537 | id and list place go, and the table's reference was not the last |
| ModeConfig.ModeConfig.RmFb | open-src/kernel/drm/src/drm_crtc.c:2511-2549 | succeeds exactly for an id on the caller's own list; then id and list place are gone, exactly the planes that showed the object are off, and it is gone exactly unless a CRTC still shows it; the driver is called only for CRTCs that show it, none if there is none, and without a framebuffer; what a CRTC goes on showing is as before, and with a driver that touches only its target so is every other CRTC; a refused call changes nothing |
| ModeConfig.ModeConfig.FramebufferRemove | open-src/kernel/drm/src/drm_crtc.c:532-579 | exactly the planes that showed it are off and the object is gone exactly unless a CRTC still shows it, which takes a failed set_config; the driver is called only for CRTCs that show it; a last holder touches no CRTC or plane |
| ModeConfig.ModeConfig.Remains | open-src/kernel/drm/src/drm_crtc.c:532-579 | after removal the object is there exactly while a CRTC shows it |
| ModeConfig.ModeConfig.TakeOffScreen | open-src/kernel/drm/src/drm_crtc.c:557-576 | exactly the planes that showed it are off, and no CRTC shows it if no set_config fails |
| ModeConfig.ModeConfig.SweepAllPlanes | open-src/kernel/drm/src/drm_crtc.c:571-574 | exactly the planes that showed the framebuffer are off |
| ModeConfig.ModeConfig.FbRelease | open-src/kernel/drm/src/drm_crtc.c:2676-2695 | exactly the file's own objects leave the lists, the id table and the planes, and each is gone exactly unless a CRTC still shows it; the driver is called only for CRTCs that show one of them, and with one that touches only its target every other CRTC is as before |
| FbSweep.SweptOne | open-src/kernel/drm/src/drm_crtc.c:559-570 | one call of the sweep: a driver that keeps to its rules leaves every CRTC as it was or off, and a driver that touches only its target leaves the others as they were |
| FbSweep.RemovedThen | open-src/kernel/drm/src/drm_crtc.c:2676-2695 | one removal after another removes the objects of both and does nothing else, and what is off the screen stays off |
| ModeConfig.ModeConfig.SetConfigInternal | open-src/kernel/drm/src/drm_crtc.c:1945-1976 | the CRTCs are as the driver left them, their references adjusted by a run of the machine |
| ModeConfig.ModeConfig.DanceLoop | open-src/kernel/drm/src/drm_crtc.c:1967-1973 | the loop over all CRTCs is a run of the machine to the end of the sweep |
| ModeConfig.ModeConfig.SetPlane | open-src/kernel/drm/src/drm_crtc.c:1816-1936 | succeeds exactly when the plane exists and is turned off, or CRTC and framebuffer exist, the driver agrees, the plane has the format, the destination's ends fit an int and the source ends within the framebuffer's sides shifted in 32 bits; so what is accepted lies inside, and for sides below 65536 the test is exact; the plane then shows the new framebuffer or nothing; a failed call changes nothing, counts included |
| FbRequests.SourceInside | open-src/kernel/drm/src/drm_crtc.c:1882-1889 | a source that passes lies inside the framebuffer |
| FbRequests.SourceExactIff | open-src/kernel/drm/src/drm_crtc.c:1882-1889 | every source inside passes exactly for framebuffers of fewer than 65536 pixels in that direction |
| FbRequests.TestCrtc | open-src/kernel/drm/src/drm_crtc.c:2012-2135 | position within an int, a mode exactly if there are connectors, its clock and refresh within an int, no more connectors than the device has, each id readable and known |
| ModeConfig.ModeConfig.SetCrtc | open-src/kernel/drm/src/drm_crtc.c:1994-2153 | the driver is called exactly when the CRTC exists, position, mode and connectors pass and the request names a framebuffer whose sides hold the position plus the mode's sides, swapped when inverted; it is called once, with that framebuffer, and the CRTCs are then as it left them; otherwise nothing changes, counts included |
| ModeConfig.ModeConfig.GivenBack | open-src/kernel/drm/src/drm_crtc.c:416-448 | a reference taken and given back leaves every count as it was |
| ModeConfig.ModeConfig.PageFlip | open-src/kernel/drm/src/drm_crtc.c:3464-3582 | succeeds exactly when the flags are known, the CRTC exists and shows something, the driver can flip and agrees, the new framebuffer exists, has the same format and holds the CRTC's position plus the mode's sides, and the file has room for the event asked for; only that CRTC and that room change, and a failed call changes nothing |
| HelperDriver.SetConfig | open-src/kernel/drm/src/drm_crtc_helper.c:547-813 | on every outcome the helper's effect on the CRTCs is one the framebuffer machine allows |
| LockOrder.DeadlockFree | open-src/kernel/drm/src/drm_crtc.c:50-72 | threads with ordered paths: while one has not finished, one can go on |
| LockOrder.NoCircularWait | open-src/kernel/drm/src/drm_crtc.c:50-72 | no chain of waiting threads returns to its beginning |
| LockOrder.Exclusive | open-src/kernel/drm/src/drm_crtc.c:50-72 | no lock is held by two threads |
| LockPaths.UnderAllOrdered | open-src/kernel/drm/src/drm_crtc.c:50-72 | taking all modeset locks, looking up, unreferencing and destroying under them keeps the order |
| LockPaths.UnderAllHolds | open-src/kernel/drm/src/drm_crtc.c:50-72 | what is done between taking and giving back all modeset locks is done with mode_config.mutex and every CRTC's mutex held |
| LockPaths.RemoveOrdered | open-src/kernel/drm/src/drm_crtc.c:512-579 | removal keeps the order under a file's fbs_lock, fb_lock in destruction included |
| LockPaths.RmFbOrdered | open-src/kernel/drm/src/drm_crtc.c:2511-2549 | rmfb keeps the order on both its paths |
| LockPaths.OnCrtcOrdered | open-src/kernel/drm/src/drm_crtc.c:3479-3579 | page flip and cursor keep the order under one CRTC mutex |
| LockPaths.IoctlOrdered | open-src/kernel/drm/src/drm_crtc.c:2015-2151 | every path of every ioctl keeps the order and gives back all it takes |
| LockPaths.NoDeadlock | open-src/kernel/drm/src/drm_crtc.c:2511-2695 | any threads running any ioctls in any interleaving: mutual exclusion, no circle, and always someone who can go on |
| CrtcHelper.Device.SetConfig | open-src/kernel/drm/src/drm_crtc_helper.c:547-813 | succeeds exactly when memory, encoders, masks and the mode set or base change allow it, and says the whole state it leaves on success and on failure; where the CRTC showed nothing, another pixel format or another mode, success leaves a used target with what the callbacks made of the mode, and a refusal is an error if a connector asked for is the last to be given its encoder; with format, mode and links as they are it only moves the target and gives it the framebuffer; on error every link, framebuffer, position and mode is as on entry, and all else exactly when no full mode set was due or the restoring one brings it back; it keeps CRTCs enabled exactly when used; on success encoders permit their CRTCs, and the set is routed to the target exactly when the last users of encoders agree with the others |
| CrtcHelper.Device.FullIs | open-src/kernel/drm/src/drm_crtc_helper.c:638-741 | a request that can be routed is met by a full mode set exactly if the CRTC shows nothing, another pixel format or another mode, or a connector asked for gets another encoder, or one in use is on the target where it should not be or the other way round, or framebuffer or position change and there is no callback for that |
| CrtcHelper.Device.RefusedFails | open-src/kernel/drm/src/drm_crtc_helper.c:742-766 | a full mode set that is due and succeeds was refused by no callback if a connector asked for is the last that is given its encoder, as the target is then in use |
| CrtcHelper.Device.BaseDue | open-src/kernel/drm/src/drm_crtc_helper.c:767-781 | with links, format and mode as they are, success changes just framebuffer and position of the target, failure nothing, and success takes memory, encoders that permit their CRTCs and an agreeing base change if one is due |
| CrtcHelper.Device.WillingSucceeds | open-src/kernel/drm/src/drm_crtc_helper.c:547-785 | where masks permit everything and all callbacks agree, a request succeeds exactly when its connectors have encoders |
| CrtcHelper.SharedEncoder | open-src/kernel/drm/src/drm_crtc_helper.c:661-736 | a successful call on a shared encoder, routed rightly only if the connector asked for is last in the list and nothing is plugged into the other |
| CrtcHelper.HwmodeDiffers | open-src/kernel/drm/src/drm_crtc_helper.c:787-810 | a failing call on a device whose one CRTC is enabled and used, after which just its hwmode is another |
| CrtcHelper.SetAgainKeeps | open-src/kernel/drm/src/drm_crtc_helper.c:787-810 | setting the old mode again keeps links, views and other CRTCs, enables the target exactly when used, and if no callback refuses gives it the adjusted mode; it changes nothing exactly if `enabled` was right and hwmode comes out the same, which on a marked device is: idle, refused or the same hwmode |
| CrtcHelper.MarkedAtFirst | open-src/kernel/drm/src/drm_crtc_helper.c:273-313 | a device without links whose CRTCs are off has each CRTC enabled exactly when used, and so has any after the cleanup |
| CrtcHelper.UnsharedAgree | open-src/kernel/drm/src/drm_crtc_helper.c:661-736 | where no encoder is shared across the set's border, the routing condition holds |
| CrtcHelper.Device.TidiedRouting | open-src/kernel/drm/src/drm_crtc_helper.c:701-766 | after passes and cleanup listed connected connectors, and only listed ones, drive the target exactly when the last users agree |
| CrtcHelper.Device.Undo | open-src/kernel/drm/src/drm_crtc_helper.c:787-810 | the state is the saved one, or, after a full mode set, the saved one with the old mode set again |
| CrtcHelper.Device.Attempt | open-src/kernel/drm/src/drm_crtc_helper.c:643-785 | passes and last part: a full mode set is due for no framebuffer, another pixel format, another mode, a rewired or rerouted encoder or a base change without its callback; when they succeed, they route, permit and clean |
| CrtcHelper.Device.CompareWithCurrent | open-src/kernel/drm/src/drm_crtc_helper.c:638-660 | a missing framebuffer, another pixel format or other sizes or timings ask for a full mode set; another framebuffer of the same format or another position for a base change |
| CrtcHelper.Device.SetMode | open-src/kernel/drm/src/drm_crtc_helper.c:384-505 | installs mode and position, or on refusal at any callback leaves them as they were |
| CrtcHelper.Device.PassEncoders | open-src/kernel/drm/src/drm_crtc_helper.c:661-699 | each connector asked for gets the encoder the callback names and every other keeps its own; an encoder that a connector leaves loses its CRTC; fails exactly if a connector asked for has no encoder, and notes a change exactly if there is one |
| CrtcHelper.Device.PassCrtcs | open-src/kernel/drm/src/drm_crtc_helper.c:701-736 | each encoder gets the CRTC that the last connector on it wants; refused exactly if a connector's wish at its turn is not permitted, and a change is noted exactly if one comes before that |
| CrtcHelper.Device.LastTurn | open-src/kernel/drm/src/drm_crtc_helper.c:706-730 | connectors on other encoders do not matter, so the last one on an encoder settles its CRTC |
| CrtcHelper.Device.RoutedIs | open-src/kernel/drm/src/drm_crtc_helper.c:706-730 | an encoder ends on the target if the last connector on it is asked for, otherwise free if it was on the target or an earlier connector on it is asked for, and otherwise where it was |
| CrtcHelper.Device.GrantedIs | open-src/kernel/drm/src/drm_crtc_helper.c:717-722 | no connector is refused exactly if every encoder given to one that is asked for permits the target, and every other that stays on a CRTC permits that |
| CrtcHelper.Device.GrantedIsPermitted | open-src/kernel/drm/src/drm_crtc_helper.c:717-722 | if every turn was permitted, so is every encoder's CRTC in the end |
| CrtcHelper.Device.UnturnedIsRight | open-src/kernel/drm/src/drm_crtc_helper.c:706-730 | if no turn changed anything, all was routed as asked before |
| CrtcHelper.Device.RoutingFollows | open-src/kernel/drm/src/drm_crtc_helper.c:701-736 | listed connectors drive the target and others do not, exactly when no encoder is shared between them |
| CrtcHelper.Device.EncoderCrtcOk | open-src/kernel/drm/src/drm_crtc_helper.c:315-336 | true exactly if the CRTC is one of the first 32 and the bit of its position is set in the mask |
| CrtcHelper.Device.HelperEncoderInUse | open-src/kernel/drm/src/drm_crtc_helper.c:220-230 | true exactly when a connector uses the encoder |
| CrtcHelper.Device.HelperCrtcInUse | open-src/kernel/drm/src/drm_crtc_helper.c:242-251 | true exactly when an encoder in use points to the CRTC |
| CrtcHelper.Device.DisableUnusedFunctions | open-src/kernel/drm/src/drm_crtc_helper.c:273-313 | disconnected connectors lose their encoder, encoders no connector uses their CRTC, and each CRTC is enabled exactly if used and dark otherwise |
| CrtcHelper.Device.HelperDisable | open-src/kernel/drm/src/drm_crtc_helper.c:507-529 | connectors whose encoder is on the CRTC, and disconnected ones, lose it; then encoders and CRTCs are cleaned up |
| CrtcHelper.CleanupCleans | open-src/kernel/drm/src/drm_crtc_helper.c:273-313 | the cleanup leaves each CRTC enabled exactly when used and dark otherwise, and changes nothing exactly when that holds already |
| CrtcHelper.CleanupTwice | open-src/kernel/drm/src/drm_crtc_helper.c:273-313 | running it twice is running it once |
| CrtcHelper.DisableTurnsOff | open-src/kernel/drm/src/drm_crtc_helper.c:507-529 | after a disable nothing uses the CRTC and it shows nothing |
| CrtcHelper.AppliedThenCleaned | open-src/kernel/drm/src/drm_crtc_helper.c:742-766 | after mode and cleanup a used target has framebuffer, mode, adjusted mode and position, an unused one is off and dark, and the others are as before and enabled if used, off and dark if not |
| FramebufferCheck.Check | open-src/kernel/drm/src/drm_crtc.c:2385-2436 | accepts exactly the requests whose dimensions are not zero and divide by the sampling and whose planes have a handle, a pitch for a row and an end below 2^32 |
| FramebufferCheck.SamplesInReach | open-src/kernel/drm/src/drm_crtc.c:2411-2433 | every byte of every sample of an accepted request lies below 2^32 |
| FramebufferCheck.SamplesApart | open-src/kernel/drm/src/drm_crtc.c:2411-2433 | distinct samples of a plane share no byte |
| FramebufferCheck.ChromaExact | open-src/kernel/drm/src/drm_crtc.c:2396-2409 | chroma planes divide the picture exactly |
| FramebufferCheck.TablesAgree | open-src/kernel/drm/src/drm_crtc.c:3640-3849 | the four tables give each family of formats the planes, chroma sampling and bytes per sample its name says, and the big-endian flag makes any format one plane without a size |
| FramebufferCheck.NoSizeIff | open-src/kernel/drm/src/drm_crtc.c:3745-3789 | which accepted formats have no size |
| FramebufferCheck.ZeroPitch | open-src/kernel/drm/src/drm_crtc.c:2411-2433 | with such a format a pitch of zero passes, and all samples lie at one byte |
| FramebufferCheck.ZeroPitchHappens | open-src/kernel/drm/src/drm_crtc.c:2385-2436 | an accepted request of 640 by 480 pixels whose first and last sample coincide |
| LifeSweep.Field.DrawLife | open-src/app/xlock/sun-src/life.c:575-623 | the sweep in place turns an encoding of a generation into one of Conway's next generation, on a field of any size, one row or column included; the RT bit to the right of each cell then says whether it lives |
| LifeSweep.Field.SweepCell | open-src/app/xlock/sun-src/life.c:594-620 | one turn decides one cell by the bytes the sweep began with, and keeps the delay buffer |
| LifeSweep.Field.Fetch | open-src/app/xlock/sun-src/life.c:596-598 | the byte fetched two rows ahead is the one the sweep began with |
| LifeSweep.Field.Prime | open-src/app/xlock/sun-src/life.c:583-592 | the copies hold the first two rows and the last |
| LifeSweep.Field.Spawn | open-src/app/xlock/sun-src/life.c:379-431 | the nine stores, wrapped at the borders |
| LifeSweep.Field.KillCell | open-src/app/xlock/sun-src/life.c:434-486 | the nine clears, wrapped at the borders |
| LifeSweep.Field.SetCell | open-src/app/xlock/sun-src/life.c:489-502 | one more live cell |
| LifeSweep.Field.InitFates | open-src/app/xlock/sun-src/life.c:505-521 | each byte's fate is that of its number of bits |
| LifeSweep.Field.CountBits | open-src/app/xlock/sun-src/life.c:510-513 | the bit-clearing loop counts the bits |
| LifeSweep.Field.Shoot | open-src/app/xlock/sun-src/life.c:633-647 | whatever the random numbers, the shooter adds its five cells, on every field where they always lie inside |
| LifeSweep.GenerationDecided | open-src/app/xlock/sun-src/life.c:505-521 | the fate of a cell's byte and its own state settle whether it lives in the next generation |
| LifeSweep.TwoAheadUntouched | open-src/app/xlock/sun-src/life.c:594-620 | a byte two rows ahead has not been changed by the sweep |
| LifeFetch.FetchesInsideIff | open-src/app/xlock/sun-src/life.c:84-598 | every fetch of the sweep lies in the array exactly when that of the last cell does |
| LifeFetch.LargestOverruns | open-src/app/xlock/sun-src/life.c:68-84 | of the sizes allowed only 155 by 144 fetches past the end |
| LifeShots.ShotsInsideIff | open-src/app/xlock/sun-src/life.c:634-641 | the shooter's place can be computed and its cells lie in the field for every random number exactly for sides of four or of six and more |
| LifeShots.PatternsFitIff | open-src/app/xlock/sun-src/life.c:127-327 | all cells of all patterns lie in the field exactly from 30 columns and 17 rows on |
| Life.SpawnEncodes | open-src/app/xlock/sun-src/life.c:379-431 | after a birth each byte holds its eight neighbours' liveness and the RT bit to the right the cell's own |
| Life.KillEncodes | open-src/app/xlock/sun-src/life.c:434-486 | the same after a death |
| Life.OwnBit | open-src/app/xlock/sun-src/life.c:599-613 | the RT bit one place right says whether the cell is alive |
| Life.SpawnedAt | open-src/app/xlock/sun-src/life.c:379-431 | which bit a birth sets in which byte |
| Life.LocInjective | open-src/app/xlock/sun-src/life.c:385-425 | distinct cells and right borders lie at distinct places of the buffer |
| Torus.ByteCountsNeighbours | open-src/app/xlock/sun-src/life.c:505-521 | the bits of a cell's byte count its live neighbours on the torus |
| Torus.GenerationIs | open-src/app/xlock/sun-src/life.c:505-521 | a cell lives in the next generation exactly if the number of steps, out of the eight and wrapping at the edges, that lead to a live cell is three, or two and it lives |
| Torus.DropLowestBit | open-src/app/xlock/sun-src/life.c:510-513 | clearing the lowest bit takes one from the count |
| WindowTree.WalkLists | open-src/app/xmag_multivis/sun-src/multivis.c:181-324 | the frontmost listed window at a point, with the point's place in it, is the one outer rectangles make topmost |
| WindowTree.WalkIsTopIff | open-src/app/xmag_multivis/sun-src/multivis.c:216-313 | that is the window the server shows there exactly unless a window topmost from the root on has the point in its border and a drawn child reaching over it |
| WindowTree.TopHitIs | open-src/app/xmag_multivis/sun-src/multivis.c:216-313 | what topmost means: nothing where the window is not drawn or does not reach with its border; the frontmost child that is there, inside the border only; otherwise the window itself at the point in its own coordinates |
| WindowTree.BorderMisleads | open-src/app/xmag_multivis/sun-src/multivis.c:216-313 | a window of 10 by 10 with a border of 3 whose child is taken for its border |
| WindowTree.WalkInside | open-src/app/xmag_multivis/sun-src/multivis.c:216-247 | every listed area lies inside the request |
| WindowTree.Clip | open-src/app/xmag_multivis/sun-src/multivis.c:216-224 | the clipped rectangle holds exactly the points of the request that lie in the window with its border |
| MultiVis.Capture.WalkTree | open-src/app/xmag_multivis/sun-src/multivis.c:181-324 | appends exactly the flattened tree, with one colormap object for each id |
| MultiVis.Capture.FindColormap | open-src/app/xmag_multivis/sun-src/multivis.c:573-588 | the one entry for the id, made when first asked for |
| MultiVis.Capture.DoWindowsFrontToBack | open-src/app/xmag_multivis/sun-src/multivis.c:374-435 | each pel shows the frontmost window of those fetched before the first failure; the early exit loses nothing and every index is inside the image |
| MultiVis.Capture.LabelWindow | open-src/app/xmag_multivis/sun-src/multivis.c:390-431 | one window laid under what is labelled, with the unlabelled counter exact |
| MultiVis.Capture.Magnify | open-src/app/xmag_multivis/sun-src/xmag_multivis.c:868-889 | each labelled pel has the colormap and pixel of the window the walk takes for topmost, and those of the window the server shows exactly if no border misleads or the two look alike; all pels do when no fetch fails |
| MultiVis.Capture.PelMeans | open-src/app/xmag_multivis/sun-src/multivis.c:394-428 | a pel is labelled exactly where there is a window, and then has that window's colormap and its pixel at that place |
| MultiVis.ShownTells | open-src/app/xmag_multivis/sun-src/multivis.c:394-428 | what the list shows at a point is the colormap and pixel of its frontmost hit |
| MultiVis.FrontDecides | open-src/app/xmag_multivis/sun-src/multivis.c:381-394 | a labelled pixel is not changed by windows further back |
| MultiVis.CountedOut | open-src/app/xmag_multivis/sun-src/multivis.c:379-381 | the counter is zero exactly when every pel is labelled |
| RepaintImage.Window.Repaint | open-src/app/xmag_multivis/sun-src/xmag_multivis.c:1055-1159 | the picture is that of filling every magnified pixel on its own, over background or the right colours; elsewhere the window keeps what it shows |
| RepaintImage.Window.DrawRun | open-src/app/xmag_multivis/sun-src/xmag_multivis.c:1124-1133 | a run's cells get the run's colour, and the cache agrees with the server |
| RepaintImage.Window.PaintRow | open-src/app/xmag_multivis/sun-src/xmag_multivis.c:1099-1153 | one scanline's runs cover its cells |
| RepaintImage.AllTouchedCovered | open-src/app/xmag_multivis/sun-src/xmag_multivis.c:1075-1090 | every cell the expose rectangle touches is gone over |
| RepaintImage.PictureIs | open-src/app/xmag_multivis/sun-src/xmag_multivis.c:1075-1153 | which points of the window are painted, by the numbers of the expose event, and with which pixel |
| Orders.DrmOrder | open-src/kernel/drm/src/drm_bufs.c:1202-1213 | the least k with 2^k not below the size |
| Orders.PowerTest | open-src/kernel/drm/src/drm_bufs.c:1209-1210 | the and with the predecessor is zero exactly for a power of two |
| DmaLayout.SoundIffFits | open-src/kernel/drm/src/drm_bufs.c:718-844 | a successful request keeps indices, disjoint ranges and an exact byte count exactly when its bytes fit an int |
| DmaLayout.RunSoundIff | open-src/kernel/drm/src/drm_bufs.c:718-844 | over any requests, failed ones among them, the layout is sound throughout exactly when every success fits |
| DmaLayout.LaidIff | open-src/kernel/drm/src/drm_bufs.c:718-844 | a successful request keeps indices, disjoint ranges and the bound by the byte count exactly when the int it is charged covers its buffers, or took the count through zero |
| DmaLayout.LaidIffWhole | open-src/kernel/drm/src/drm_bufs.c:718-844 | for buffers of whole pages: exactly when the bytes fit an int or the count went through zero |
| DmaLayout.Overlaps | open-src/kernel/drm/src/drm_bufs.c:774-831 | a request of a multiple of 2^32 bytes is laid over by the next |
| DmaLayout.OverlapHappens | open-src/kernel/drm/src/drm_bufs.c:774-831 | two concrete requests whose buffers overlap |
| DmaLayout.UnitAtLeast | open-src/kernel/drm/src/drm_bufs.c:722-725 | a buffer takes at least its aligned size, and exactly that from a page up |
| DmaLayout.AlignmentIs | open-src/kernel/drm/src/drm_bufs.c:720-723 | the aligned size is the power of two, or with the flag the least multiple of the page size that is not below it |
| DmaLayout.ChargeIs | open-src/kernel/drm/src/drm_bufs.c:724-839 | the byte count grows by the larger of size and page for each buffer, summed in 32 bits with a sign and added in 64 without |
| DmaBuffers.Dma.AddBufsSg | open-src/kernel/drm/src/drm_bufs.c:692-845 | succeeds exactly when not in use, the order is allowed and still empty, there are 0 to 4096 buffers and every allocation succeeds; then the buffers are numbered on, each takes 2^order bytes, or with the flag the least multiple of the page size not below that, and buffer i lies at the old byte count plus i times that, modulo 2^64; the order's entry holds their size, its pages and the buffers, and no other entry changes; on any failure list and totals are unchanged |
| DmaBuffers.Dma.AddEntry | open-src/kernel/drm/src/drm_bufs.c:748-836 | the entry's buffers are appended in place, or everything is as before |
| DmaBuffers.Dma.FillEntry | open-src/kernel/drm/src/drm_bufs.c:775-809 | the loop places every buffer, or stops at the failing allocation with the count set for cleanup |
| DmaBuffers.Dma.StartUse | open-src/kernel/drm/src/drm_bufs.c:910-916 | infobufs and mapbufs pass exactly when no one is adding |
| DmaGate.NextKeeps | open-src/kernel/drm/src/drm_bufs.c:741-747 | the allocation counter counts the threads inside, and excludes use |
| DmaGate.NeverBoth | open-src/kernel/drm/src/drm_bufs.c:584-590 | in every interleaving no thread is inside addbufs while buffers are in use |
| DmaGate.LeaveCounted | open-src/kernel/drm/src/drm_bufs.c:741-843 | in every interleaving the count is above zero while a thread is inside, so leaving, which nothing can block, takes just that thread off it |
| DmaGate.FrozenAfterUse | open-src/kernel/drm/src/drm_bufs.c:1092-1098 | after the first successful use gate, list, counts and totals never change |
| MagicTable.Table.FindFile | open-src/kernel/drm/src/drm_auth.c:69-86 | the oldest file under the magic, or none |
| MagicTable.Table.AddMagic | open-src/kernel/drm/src/drm_auth.c:98-128 | queues the file under the magic and changes no other; list, head and tail stay sound |
| MagicTable.Table.RemoveMagic | open-src/kernel/drm/src/drm_auth.c:139-168 | takes the oldest file of the magic and no other, or reports that there is none |
| MagicTable.Table.Hang | open-src/kernel/drm/src/drm_auth.c:117-124 | the new entry becomes its bucket's tail |
| MagicTable.Table.Unhook | open-src/kernel/drm/src/drm_auth.c:151-161 | the entry leaves its bucket, whatever its position |
| MagicTable.FilesOfWithout | open-src/kernel/drm/src/drm_auth.c:150-161 | removing the first entry of a magic takes its oldest file and leaves the other magics' |
| AuthSteps.Auth.GetMagic | open-src/kernel/drm/src/drm_auth.c:187-210 | the file's own magic, or the first unused number after the sequence, entered when memory allows |
| AuthSteps.Auth.NextMagic | open-src/kernel/drm/src/drm_auth.c:196-201 | the loop ends, at the first number no file holds |
| AuthSteps.GetMagicIs | open-src/kernel/drm/src/drm_auth.c:187-210 | a file that has a magic keeps it; otherwise every number that the sequence passes over is in the table, and the first that is not is handed out and entered if there is memory |
| AuthSteps.Auth.AuthMagic | open-src/kernel/drm/src/drm_auth.c:225-237 | succeeds exactly for a magic in the caller's table, marks its file and uses it up |
| AuthSteps.Auth.Release | open-src/kernel/drm/src/drm_fops.c:336-339 | closing takes the file's magic out |
| AuthRuns.FreshIff | open-src/kernel/drm/src/drm_auth.c:187-210 | issued magics are distinct and non-zero exactly while fewer than 2^32 have been issued |
| AuthRuns.GrantsReached | open-src/kernel/drm/src/drm_auth.c:187-210 | some run issues any number of magics |
| AuthRuns.StaleReached | open-src/kernel/drm/src/drm_auth.c:196-201 | so some run issues a magic that is 0 or was issued before |
| AuthRuns.OneShot | open-src/kernel/drm/src/drm_auth.c:225-237 | while fewer than 2^32 magics have been issued: what authenticates was issued, and no magic authenticates twice |
| AuthRuns.AuthenticatesIff | open-src/kernel/drm/src/drm_auth.c:225-237 | while fewer than 2^32 magics have been issued: success exactly for a stored, unused grant of the caller's master whose file is open, and it is that file that is marked |
| AuthRuns.NextKeeps | open-src/kernel/drm/src/drm_auth.c:187-237 | every call that leaves fewer than 2^32 magics issued keeps the agreement of sequence, tables, files and grants |
| AliasLists.RoundTripIff | open-src/app/installalias/sun-src/installalias.c:529-556 | the text printed for any pairs is read back as the same pairs exactly when every one of them is printable |
| AliasExact.ReadsBackIff | open-src/app/installalias/sun-src/installalias.c:541-556 | the same for one pair: a name's bytes are printed bare or in quotes, and nothing else reads back as they are |
| AliasText.RoundTrip | open-src/app/installalias/sun-src/installalias.c:541-556 | the text printed for printable pairs is read back as the same pairs, and every copy stays inside its 1024 bytes |
| AliasText.FitsIff | open-src/app/installalias/sun-src/installalias.c:331-369 | reading a file to its end copies no font past 1024 bytes exactly when each font token is shorter |
| AliasText.LongFontOverruns | open-src/app/installalias/sun-src/installalias.c:366-366 | a printed font of 1024 bytes or more does not fit when it is read |
| AliasText.OverrunHappens | open-src/app/installalias/sun-src/installalias.c:366-366 | a font of 1024 times b |
| AliasLists.ReadInLine | open-src/app/installalias/sun-src/installalias.c:196-369 | a printed line and what follows it are read one after the other, unless the line overruns |
| AliasExact.PairNeeds | open-src/app/installalias/sun-src/installalias.c:331-369 | reading a pair uses up the ordinary bytes of its names and one more between them |
| AliasText.ReadsBack | open-src/app/installalias/sun-src/installalias.c:331-369 | one printed pair reads back and leaves the file at its newline |
| AliasText.LexQuoted | open-src/app/installalias/sun-src/installalias.c:196-274 | a quoted name is scanned as that name |
| AliasText.TabSplits | open-src/app/installalias/sun-src/installalias.c:545-556 | a tab in an alias without a space splits it |
| AliasFile.Reader.LexAlias | open-src/app/installalias/sun-src/installalias.c:196-274 | returns the next token of the file, or runs out of memory; every store, the terminator's included, is inside the buffer |
| AliasFile.Reader.Grow | open-src/app/installalias/sun-src/installalias.c:214-226 | keeps what is in the buffer and makes room for one more byte |
| AliasFile.Reader.GetChar | open-src/app/installalias/sun-src/installalias.c:276-308 | the next character and its class: an escaped one is ordinary, a backslash at the end of the file ends it |
| AliasFile.Reader.ReadAliases | open-src/app/installalias/sun-src/installalias.c:331-373 | the next pair of the file, in lower case, in two arrays of 1024 bytes; or the end of the file; or the answer that the font does not fit, given before any store outside |
| AliasFile.Reader.ProcessAliasFile | open-src/app/installalias/sun-src/installalias.c:529-566 | prints exactly the pairs that are found and not their own alias, in order, up to a font that does not fit; they read back exactly if all are printable |
| Pyro.Show.DrawPyro | open-src/app/xlock/sun-src/pyro.c:226-252 | lights up exactly when the show has just started or the dice say so, launches then as many as were drawn or as fit and otherwise none, starts, counts down and ends fusillades, keeps the count of flying rockets exact and draws each of them once |
| Pyro.Show.DrawRockets | open-src/app/xlock/sun-src/pyro.c:246-251 | the scan stays in the pool and meets every flying rocket once |
| Pyro.Show.Ignite | open-src/app/xlock/sun-src/pyro.c:255-304 | launches as many as asked for or as fit, and touches no flying rocket |
| Pyro.Show.FindSilent | open-src/app/xlock/sun-src/pyro.c:291-292 | the scan without a bounds test ends inside the pool |
| Pyro.ScanStays | open-src/app/xlock/sun-src/pyro.c:289-293 | while not all fly, the scan has not passed the end |
| Pyro.Show.Fly | open-src/app/xlock/sun-src/pyro.c:307-341 | a rocket is silent again exactly fuse, star fuse and one draws after ignition |
| Pyro.Show.LifeLength | open-src/app/xlock/sun-src/pyro.c:299-391 | no rocket is drawn more than 211 times |

## Left out

- FbMachine: `drm_framebuffer_init` returns success even when the id allocation failed; allocation is taken to succeed.
- FbMachine: cursor and gamma ioctls touch no framebuffer; they appear only in `LockPaths`.
- ModeConfig.ModeConfig.AddFb: the address and id are what the allocators hand out, so they are unused.
- ModeConfig.ModeConfig.SetCrtc: of a mode only its size and the two tested fields are kept, and drivers answer as functions; the tests come before the lookup, where a failure has the same effect.
- ModeConfig.ModeConfig.PageFlip: the size of an event is a parameter, since drm.h is not part of the repository; so are the flags it and addfb2 know.
- CrtcHelper.Device.SetConfig: what callbacks do to hardware, DPMS included, is left out; their answers are parameters.
- MagicTable.HashMagic: the mask with 15 is written as the remainder by 16.
- AuthSteps.Auth.GetMagic: the two ioctls are serialised, as the comment on them demands, so the compare-and-set always succeeds.
- AuthRuns.FreshIff: clearing authentication when a master goes, and replacing a master, are not part of the runs.
- DmaBuffers.Dma.AddBufsSg: bus addresses, private data and the refusals for missing features or privileges are left out; in the AGP path only the gate is modelled, since its list copy goes the other way.
- DmaLayout.Config: the limits of the orders and the page size are parameters, since drm.h is not part of the repository.
- DmaGate.FrozenAfterUse: the reset of both counters at first open begins a new run.
- FramebufferCheck.Check: format codes are names, since drm_fourcc.h is not part of the repository.
- LifeSweep.Field.SetCell: where a cell outside the field is stored is not modelled; LifeShots says for which sizes there is none.
- LifeSweep.Field.DrawLife: a window too low for one row, for which initlife divides by zero; ages, drawing, pattern tables and the choice of a new pattern; the modelled array has a full row of slack, which the fetches of the last row read and never use.
- MultiVis.Capture.WalkTree: SHAPE regions and colour lookup; positions do not overflow, as X coordinates have 16 bits.
- MultiVis.Capture.DoWindowsFrontToBack: UPDATE_HACK callbacks and the reading of colormaps.
- RepaintImage.Window.Repaint: expose positions are not negative.
- AliasFile.Reader.ReadAliases: what happens after a store past the end of font_name is not modelled; reading stops there.
- AliasFile.Reader.ProcessAliasFile: what finding a font does is one answer per pair.
- Pyro.Show.DrawPyro: motion, colours and drawing.
- drm_agpsupport.c, drm_context.c, drm_dma.c, the property and blob ioctls and the remaining xlock modes: copies, counters and wrappers.
