# motion-control: a Dafny model of the zone editor and key arbitration

motion-control turns a webcam into a keyboard. The user draws rectangular
zones over the camera picture. Each zone may be bound to a key, inverted, and
placed in a numbered group with a priority. While a background frame is
captured, every frame sums the motion inside each zone. A zone whose sum
passes 10000 (or does not pass it, when the zone is inverted) presses its key.
Inside a group, a pressed zone of higher priority blocks lower ones, and a
newly pressed zone releases the lower pressed ones.

This project models the core of that program and proves properties of it:

- the zone registry (`add_zone`, `remove_zone`, `add_to_group`,
  `remove_from_group`, `find_group`);
- the press/release arbitration (`can_activate`, `activate_zone`,
  `deactivate_zone`, `test_zones`);
- the editor state machine (`key_pressed`, `mouse_event` and the editing
  commands they dispatch to);
- the `InputZone` and `InputGroup` classes;
- the `SaveData.to_dict` serialiser, and the record-to-zone decoding the save
  manager applies on load.

Layout, one module per file:

| file | module | models |
|---|---|---|
| `input_zone.dfy` | `InputZones` | `InputZone` as a class; its bounds as a `Rect` value; the attribute record `ZoneRecord` (the zone's `__dict__`) |
| `input_group.dfy` | `InputGroups` | `InputGroup` as a class; `list.remove` as `RemoveFirst` |
| `save_data.dfy` | `Config` | `SaveData.to_dict`; decoding saved records into fresh zones |
| `keys.dfy` | `Keys` | the six modes of input_mode.py; what a key code means in each mode (`Decode`) and the mode it leaves (`NextMode`) |
| `editing.dfy` | `Editing` | the editor commands stated on lists of zone records: first hit, attribute edits, inversion, and `Sweep`, the remove-while-iterating loop of `destroy_zone` |
| `arbitration.dfy` | `Arbitration` | the trigger test, blocking and lowering between group members, the key actuations of a cascade |
| `motion_control.dfy` | `MotionControl` | the module globals of main.py as one `Session` object and every main.py function of the core as a method on it |

Zones are objects, and identity is reference identity, as in Python (the
zone class defines no `__eq__`). `Session.Valid()` is the registry invariant:

- the zone list holds distinct zones;
- group ids are distinct;
- every member of a group carries that group's id and appears once in it;
- every grouped zone of the list is a member of the group with its id.

Every registry and editor method keeps this invariant.
`Session.PrioritiesAgree()` says that all pressed members of a group share one
priority. The arbitration methods keep it whenever it held before.

The key controller is a ghost `log` of `Press`/`Release` actuations. Each
editor command that works on the zone list is specified against a function on
`seq<ZoneRecord>`:

- `EditFirstHit` for `set_key`, `set_group` and `set_priority`;
- `InvertHits` for `invert_zone`;
- `Sweep` for `destroy_zone`.

The properties of the commands are proved about those functions.

Behaviour modelled as written:

- `destroy_zone` removes zones from the list while iterating over it. The
  zone that slides into a removed zone's slot is never tested. So the first
  zone under the pointer is always removed, but a zone under the pointer
  right after any removed one survives (`Editing.SweepSparesFollower`).
  Exactly the zones the loop tests and finds under the pointer are removed
  (`Editing.SweepRemoves`). With four zones all under the pointer, the
  second and the fourth survive (`Editing.SweepAllHitFour`).
- `invert_zone` has no `break`. It flips every zone under the pointer.
- `to_dict` emits `pressed`, and loading a file ignores it.
- Groups are never pruned. `load_config` replaces the zone list but keeps
  the group list, so the zones of the previous layout stay members of their
  groups.
- A cancelled load dialog makes the save manager return `None`. The zone
  list has already been cleared when that `None` is dereferenced, so the
  result is an empty zone list.

## Model

| member | source | states |
|---|---|---|
| `InputZones.InputZone.constructor` | input_zone.py:3-12 | the new zone holds exactly the given bounds, key, inversion, group and priority, and is not pressed |
| `InputZones.InputZone.SetSize` | input_zone.py:14-16 | the origin is kept and the bounds become `Resized(old, w, h)`, so `GetW() == w` and `GetH() == h`; any w, h is accepted |
| `InputZones.InputZone.SetPosition` | input_zone.py:18-24 | the origin becomes (x, y) and width and height are kept: the bounds become `MovedTo(old, x, y)` |
| `InputZones.MovedTo` | input_zone.py:18-24 | the moved rectangle has its origin at (x, y) and the original width and height |
| `InputZones.Resized` | input_zone.py:14-16 | the resized rectangle keeps the origin and has width w and height h |
| `InputZones.MovedToIdempotent` | input_zone.py:18-24 | moving twice to the same place equals moving once |
| `InputZones.MovedToTranslatesHits` | input_zone.py:18-24 | a moved zone contains a point exactly when the original zone contains that point shifted back by the move |
| `InputZones.Records` | config/save_data.py:10-13 | one attribute record per zone, in list order, record i being zone i's attributes |
| `InputZones.Rect.Contains` | main.py:122 | the pointer test (the same test recurs at main.py lines 83, 89, 96, 129 and 138) is strict on all four sides, so only a zone at least two pixels wide and high can contain a point |
| `InputZones.RecordsAfterWrite` | main.py:120-140 | writing one zone's attribute changes that zone's record only |
| `InputGroups.IndexOf` | input_group.py:12-13 | the position `list.remove` finds: it holds the element and no earlier position does |
| `InputGroups.RemoveFirst` | input_group.py:12-13 | removing a member shortens the list by one and removes exactly one copy of it |
| `InputGroups.RemoveFirstDistinct` | input_group.py:12-13 | in a duplicate-free list, exactly the other members remain, still without duplicates |
| `InputGroups.RemoveFirstAt` | input_group.py:12-13 | in a duplicate-free list, removing the element at position i cuts out slot i and keeps the order of the rest |
| `InputGroups.AddThenRemove` | input_group.py:9-13 | appending a non-member and then removing it restores the list |
| `InputGroups.Without` | input_group.py:12-13 | the list filtered of a set keeps only members of the list outside the set, never growing |
| `InputGroups.WithoutMembers` | input_group.py:12-13 | an element is in the filtered list exactly when it is in the list and not in the set |
| `InputGroups.WithoutNothing` | input_group.py:12-13 | filtering out elements the list does not hold changes nothing |
| `InputGroups.WithoutTwice` | input_group.py:12-13 | filtering twice equals filtering once by the union |
| `InputGroups.WithoutConcat` | input_group.py:12-13 | filtering distributes over concatenation |
| `InputGroups.RemoveFirstIsWithout` | input_group.py:12-13 | in a duplicate-free list, `list.remove` of a member is the list filtered of that member |
| `InputGroups.InputGroup.constructor` | input_group.py:5-7 | a new group has the given id and no members; the id is a constant |
| `InputGroups.InputGroup.AddZone` | input_group.py:9-10 | the member is appended at the end and earlier members are unchanged |
| `InputGroups.InputGroup.RemoveZone` | input_group.py:12-13 | the first occurrence is cut out, the rest keep their order; removing a non-member is excluded, because `list.remove` raises |
| `Config.SaveData.constructor` | config/save_data.py:5-6 | the object holds the given zone list |
| `Config.SaveData.ToDict` | config/save_data.py:8-15 | the dictionary has the single key "zones", holding one record per zone in list order with every attribute, `pressed` included; nothing is modified |
| `Config.DecodeZone` | config/save_manager.py:36-37 | a fresh zone whose attributes are the record's, except that it is not pressed |
| `Config.DecodeZones` | config/save_manager.py:34-39 | one fresh zone per record, distinct, in record order, each with the record's attributes and not pressed |
| `Config.SaveThenLoad` | config/save_data.py:8-15 | round trip: decoding the saved records rebuilds zones whose attributes equal the originals, except that none is pressed |
| `Keys.ParseDigit` | main.py:214 | `int(chr(key))` succeeds exactly on the digit keys and yields the digit's value |
| `Keys.Decode` | main.py:201-250 | no key means nothing to do; a real key in a one-shot mode always edits or is rejected; rejection happens exactly for a non-digit in the group or priority mode |
| `Keys.NextMode` | main.py:207-250 | no key keeps the mode; a mode key selects its mode; any other change of mode is the fall-back to `Default` |
| `Keys.EditingKeyCommands` | main.py:226-250 | outside the one-shot modes, '2', '3', '7', '-' and '=' create, destroy, invert, load and save, each in both directions; every other key leaves the zones alone |
| `Keys.NoKeyKeepsMode` | main.py:201-203 | no key keeps the mode |
| `Keys.OneShotFallsBack` | main.py:207-224 | a real key in `SetKey`, `Group` or `Priority` returns to `Default` and is never dispatched as a command |
| `Keys.DigitsSelectModes` | main.py:226-243 | outside the one-shot modes '1', '4', '5', '6', '8' and '9' select `Default`, `Move`, `Resize`, `SetKey`, `Group` and `Priority` |
| `Keys.EnteringOneShot` | main.py:207-243 | a one-shot mode is entered only by its own key from a mode that is not one-shot, or kept when no key comes |
| `Editing.NewZone` | main.py:76-78 | a created zone is 50 pixels wide with its origin at the pointer, so the pointer's inner neighbour hits it |
| `Editing.FirstHit` | main.py:120-124 | the index of the first record whose bounds strictly contain the point; none exactly when no record contains it |
| `Editing.FirstHitOnlyGeometry` | main.py:120-140 | which zone is hit first depends only on the bounds |
| `Editing.Apply` | main.py:120-140 | an attribute command sets exactly its own attribute (key, group or priority) and keeps the bounds, pressed, inverted and the other two attributes |
| `Editing.EditFirstHit` | main.py:120-140 | an attribute command changes only the first zone under the pointer, only in its own attribute; bounds, pressed and inverted never change |
| `Editing.EditFirstHitIdempotent` | main.py:120-140 | repeating an attribute command at the same pointer changes nothing more |
| `Editing.InvertHits` | main.py:81-84 | every zone under the pointer flips its inversion flag; every other zone is unchanged |
| `Editing.InvertHitsInvolution` | main.py:81-84 | inverting twice at the same pointer restores the list |
| `Editing.Sweep` | main.py:87-90 | the list left by removing while iterating is never longer than the original |
| `Editing.SweepNoHits` | main.py:87-90 | when no zone is under the pointer, nothing is removed |
| `Editing.SweepKeepsMisses` | main.py:87-90 | a zone not under the pointer is never removed |
| `Editing.SweepSubset` | main.py:87-90 | nothing is added |
| `Editing.SweepDistinct` | main.py:87-90 | a duplicate-free list stays duplicate-free |
| `Editing.SweepRemovesFirstHit` | main.py:87-90 | the first zone under the pointer is always removed |
| `Editing.SweepSparesFollower` | main.py:87-90 | the zone right after any zone the loop removes is skipped and survives, even when it is under the pointer |
| `Editing.SweepSparesFirstFollower` | main.py:87-90 | in particular the zone right after the first one under the pointer survives |
| `Editing.UnhitPrefixTested` | main.py:87-90 | the loop tests every zone up to and including the first one under the pointer |
| `Editing.FollowerUntested` | main.py:87-90 | the zone right after a removed one is never tested |
| `Editing.SweepKeepsUnremoved` | main.py:87-90 | every zone the loop does not test, or tests and finds away from the pointer, survives |
| `Editing.SweepRemovesTested` | main.py:87-90 | in a duplicate-free list every zone the loop tests and finds under the pointer is removed |
| `Editing.SweepRemoves` | main.py:87-90 | in a duplicate-free list a zone is removed exactly when the loop tests it and finds it under the pointer |
| `Editing.SweepAllHitFour` | main.py:87-90 | example: four zones all under the pointer leave the second and the fourth |
| `Editing.SweepAtIsSweep` | main.py:87-90 | the index-based walk of the loop computes `Sweep` of the remaining suffix |
| `Editing.SweepAdvance` | main.py:88-90 | one loop iteration: the slot's zone is the next untested original, and the walk state advances, cutting the slot out exactly when that zone is under the pointer |
| `Editing.DestroyOutcome` | main.py:87-90 | over a pointer mask: misses survive, no hit means no change, and the first hit is removed |
| `Arbitration.PressOf` | main.py:283-284 | an activation issues one press exactly when the zone has a key |
| `Arbitration.Triggered` | main.py:161-165 | a plain zone triggers exactly when its motion sum exceeds 10000, an inverted zone exactly when it does not |
| `Arbitration.ReleaseOf` | main.py:303-304 | a deactivation issues one release exactly when the zone has a key |
| `Arbitration.Blocks` | main.py:272 | a blocker is never lowered by the blocked zone, and m blocks z exactly when m is pressed and m would release z, were z pressed, on activating: blocking and lowering are mirror images |
| `Arbitration.RecordsOf` | main.py:268-269 | the records of a member list, member by member in list order |
| `Arbitration.Turn` | main.py:159-169 | one turn of `test_zones`, with `activate_zone` and `deactivate_zone` (main.py:279-305) inlined: untriggered deactivates (a release if pressed and keyed), triggered activates unless pressed or blocked, pressing the zone, releasing the lowered pressed members, and logging the press then the cascade; no zone is added or lost |
| `Arbitration.Run` | main.py:159-169 | `test_zones` on a snapshot: the turns in list order, the log being the turns' logs concatenated; no zone is added or lost |
| `Arbitration.TurnEffect` | main.py:159-169 | a turn changes pressed flags only, never presses another zone, never touches an ungrouped other zone, releases an untriggered zone and presses a triggered ungrouped one |
| `Arbitration.RunKeepsAttributes` | main.py:159-169 | a run changes pressed flags only |
| `Arbitration.RunSettles` | main.py:159-169 | after a run over distinct zones no untriggered zone is pressed and each ungrouped zone is pressed exactly when triggered |
| `Arbitration.RunReleases` | main.py:159-169 | the k-th zone of a run, when untriggered, ends the run released, since later turns never press it |
| `Arbitration.RunFollowsUngrouped` | main.py:159-169 | the k-th zone of a run, when ungrouped, ends the run pressed exactly when triggered |
| `Arbitration.RunStep` | main.py:159-169 | one more loop iteration extends the run by one turn |
| `Arbitration.RunTwo` | main.py:159-169 | a run over two zones is the first zone's turn followed by the second's |
| `Arbitration.CascadeQuiet` | main.py:292-296 | with no member pressed the cascade issues nothing |
| `Arbitration.QuietPress` | main.py:279-296 | activating a released zone in a group with no pressed member presses it alone and issues only its press |
| `Arbitration.FirstFrame` | main.py:159-169 | example: zones 'w' (priority 2) and 's' (priority 1) in group 1, both moving: only 'w' is pressed and the log is one press of 'w' |
| `Arbitration.SecondFrame` | main.py:159-169 | example, next frame with only 's' moving: 'w' is released and 's' pressed, logging release 'w' then press 's' |
| `Arbitration.TwoFrames` | main.py:159-169 | the two frames in sequence: pressed flags (true, false) then (false, true), logs [press w] then [release w, press s] |
| `Arbitration.CascadeLog` | main.py:292-296 | the cascade issues at most one actuation per member |
| `Arbitration.CascadeLogSplit` | main.py:292-296 | each member visited appends its release exactly when it is lowered, in member order |
| `Arbitration.CascadeLogReleases` | main.py:292-296 | the cascade only releases, and it issues nothing exactly when no lowered member has a key, so equal priorities release nothing |
| `MotionControl.Find` | main.py:69-73 | the group found is listed and has the id; none exactly when no listed group has it |
| `MotionControl.FindAppend` | main.py:54-56 | appending a group changes no earlier lookup, and it is found only for an id no earlier group has |
| `MotionControl.FindUnique` | main.py:69-73 | with distinct ids, looking up a group's id finds that group |
| `MotionControl.DirOfFind` | main.py:69-73 | looking an id up in the directory of groups gives the members of the group `find_group` returns, or none |
| `MotionControl.WithGroup` | main.py:28-30 | the loaded zones with a given group id, in order, never more than the zones |
| `MotionControl.Tagged` | main.py:28-30 | the zones whose recorded tag is the id, in order, never more than the zones |
| `MotionControl.WithGroupTagged` | main.py:28-30 | tagging each zone with its own group id gives `WithGroup` |
| `MotionControl.TaggedSnoc` | main.py:28-30 | adding one more loaded zone appends it to its own group's filter only |
| `MotionControl.TaggedNone` | main.py:28-30 | an id no zone is tagged with selects nothing |
| `MotionControl.DirOfOne` | main.py:69-73 | the directory of a single group maps its id to its members |
| `MotionControl.Session.constructor` | main.py:13-20 | empty zone and group lists, `Default` mode, no selection, pointer and offsets at the origin, not armed, nothing actuated; the invariant holds |
| `MotionControl.Session.AddToGroup` | main.py:45-56 | an ungrouped zone changes nothing; otherwise the zone is appended to the group with its id, or a new group holding only the zone is appended; other groups are unchanged; the invariant is restored |
| `MotionControl.Session.JoinGroup` | main.py:49-52 | the zone is appended to the existing group with its id |
| `MotionControl.Session.NewGroup` | main.py:54-56 | a group with the zone's id and the zone as its only member is appended |
| `MotionControl.Session.RemoveFromGroup` | main.py:59-66 | the zone's first occurrence is cut from the group with its id; other groups are unchanged; no group is deleted |
| `MotionControl.Session.LeaveGroup` | main.py:63-66 | the group loses exactly the zone's first occurrence |
| `MotionControl.Session.AddZone` | main.py:35-37 | the zone is appended to the list and joins its group: the group with its id gains exactly the zone at its end, a missing group is appended holding only the zone, every other member list is unchanged; the invariant holds |
| `MotionControl.Session.RemoveZone` | main.py:40-42 | the zone leaves the list (first occurrence) and every group; nothing else is removed; the invariant holds |
| `MotionControl.Session.Regroup` | main.py:130-132 | the zone takes the new id; every old group's list becomes its old list without the zone, followed by the zone for the group with the new id, a missing group being appended with the zone alone; the zone ends a member of exactly that group |
| `MotionControl.Session.Rejoin` | main.py:131-132 | a zone in no group takes the new id and is appended to exactly the group with that id, or to a new group holding only it |
| `MotionControl.Session.Members` | main.py:268-269 | `find_group(zone.group).zones`, also at main.py:290-292: an ungrouped zone has no members to scan; members found are the member list of a listed group with the zone's id |
| `MotionControl.Session.WorldOfTwo` | main.py:35-37 | the snapshot of a two-zone session holds both zones' records |
| `MotionControl.Session.NoBlocker` | main.py:269-274 | the member scan finds no blocker exactly when no other member is pressed in the same group with strictly higher priority |
| `MotionControl.Session.CanActivate` | main.py:263-276 | always true for an ungrouped zone; otherwise false exactly when another member of its group with the same id is pressed with strictly higher priority |
| `MotionControl.Session.DeactivateZone` | main.py:299-305 | the zone ends released; a pressed zone logs one release when it has a key, a released zone logs nothing |
| `MotionControl.Session.ActivateZone` | main.py:279-296 | a pressed or blocked zone changes nothing; otherwise the zone is pressed, one press is logged when it has a key, and exactly the pressed members of strictly lower priority are released, in member order; agreement of priorities is kept |
| `MotionControl.Session.ActivationKeepsAgreement` | main.py:279-296 | after an unblocked activation, all pressed members of every group still share one priority |
| `MotionControl.Session.MembersOfListed` | main.py:268-290 | for a zone of the list, `find_group` succeeds and the group's members are distinct zones of the session |
| `MotionControl.Session.PressAndCascade` | main.py:283-296 | press, then cascade: the log gains the press and then the cascade's releases, and exactly the lowered members are released |
| `MotionControl.Session.ReleaseLower` | main.py:292-296 | the cascade loop logs `CascadeLog` of the members and releases exactly the lowered members other than the activated one |
| `MotionControl.Session.TestZones` | main.py:159-169 | the zones and the key log end as `Run` of the zones in list order from the old zones, so the actuations are those of the turns, in order; hence no untriggered zone stays pressed, every ungrouped zone is pressed exactly when triggered, groups are untouched and agreement of priorities is kept |
| `MotionControl.Session.TestLoop` | main.py:161-169 | the loop over the zone list runs every turn of `Run` in list order, logging each turn's actuations, and keeps agreement of priorities |
| `MotionControl.Session.TestStep` | main.py:160-169 | one iteration takes turn i of `Run` on the current zones |
| `MotionControl.Session.Settled` | main.py:159-169 | zones that are the result of `Run` satisfy the pressed-flag promises of `test_zones` |
| `MotionControl.Session.TestZone` | main.py:164-169 | one turn: the zones and the log become `Turn` of the old ones, so an untriggered zone is released, a triggered ungrouped one pressed, no other zone is pressed and no ungrouped other zone is touched |
| `MotionControl.Session.ActivateTurn` | main.py:279-296 | `activate_zone` in `test_zones` is the triggered `Turn`: the zones and the log become those of the turn, the groups are untouched |
| `MotionControl.Session.DeactivateTurn` | main.py:299-305 | `deactivate_zone` in `test_zones` is the untriggered `Turn`: the zone ends released, nothing else changes, the log gains its release |
| `MotionControl.Session.Detect` | main.py:326-329 | without a background nothing is actuated and no zone changes; with one, the zones and the log become `Run` over the zone list, as `test_zones` |
| `MotionControl.Session.CreateZone` | main.py:76-78 | the zone list gains `NewZone` at the pointer at its end, in a fresh zone, the earlier zones staying the same objects in the same order (`AppendedFresh`); groups are unchanged |
| `MotionControl.Session.InvertZone` | main.py:81-84 | the records become `InvertHits` of the old records; zones off the list (those of an earlier layout) keep every attribute |
| `MotionControl.Session.FirstUnderIsFirstHit` | main.py:93-100 | the search of `select_zone` finds the same zone as `FirstHit` on the records, and none exactly when `FirstHit` finds none |
| `MotionControl.Session.FirstHitIndex` | main.py:120-124 | the loop with `break` finds `FirstHit` of the records |
| `MotionControl.Session.SetKeyAt` | main.py:120-124 | the records become `EditFirstHit` with the key; zones off the list (those of an earlier layout) keep every attribute |
| `MotionControl.Session.KeyAt` | main.py:123 | only the i-th zone's key changes |
| `MotionControl.Session.SetPriorityAt` | main.py:136-140 | the records become `EditFirstHit` with the priority; zones off the list (those of an earlier layout) keep every attribute |
| `MotionControl.Session.PriorityAt` | main.py:139 | only the i-th zone's priority changes |
| `MotionControl.Session.SetGroupAt` | main.py:127-133 | the records become `EditFirstHit` with the group; for a hit zone every old group's list becomes its old list without the zone, followed by the zone for the group with the new id, and the zone ends a member of exactly that group (`Regrouped`); without a hit no list changes; zones off the list (those of an earlier layout) keep every attribute |
| `MotionControl.Session.RegroupAt` | main.py:130-132 | only the i-th zone's group id changes; every old group's list loses that zone, the group with the new id gains it at the end, or a new group holding only it is appended; zones off the list (those of an earlier layout) keep every attribute |
| `MotionControl.Session.SelectZone` | main.py:93-100 | without a zone under the pointer nothing changes; otherwise the first such zone is selected, with the pointer recorded and the pointer's offset from its origin (`SelectedFirst`) |
| `MotionControl.Session.MoveZone` | main.py:103-108 | without a selection nothing changes; otherwise the selection moves so that the pointer keeps its offset from the origin, keeping its size; right after a selection it moves by the pointer's displacement; no other zone moves |
| `MotionControl.Session.ResizeZone` | main.py:111-117 | without a selection nothing changes; otherwise the selection keeps its origin and takes the size the pointer's travel gives, which right after a selection puts its far corner at the pointer; no size bound; no other zone changes |
| `MotionControl.Session.PointerMoved` | main.py:188-193 | records the pointer, then moves in `Move` mode, resizes in `Resize` mode and changes no zone otherwise |
| `MotionControl.Session.MouseEvent` | main.py:186-198 | a move records the pointer and drags the selection in `Move`/`Resize`; a left press selects as `select_zone`; a left release drops the selection; nothing else changes |
| `MotionControl.Session.LoadConfig` | main.py:23-32 | a failed load changes neither list nor any record; a cancelled dialog empties the zone list and leaves every group list as it was; a loaded file makes the records the saved ones with `pressed` cleared, in fresh zones, each old group gaining at its end the loaded zones with its id in record order and each new group holding exactly those (`LoadedAs`) |
| `MotionControl.Session.LoadRecords` | main.py:26-30 | loading records clears the list, then the zones decoded from the records are added in order: the records become the decoded ones, each old group gains the new zones with its id in order, each new group holds exactly those |
| `MotionControl.Session.AddZones` | main.py:28-30 | the zone list becomes the loaded zones in order; each old group gains at its end exactly the loaded zones with its id, in order, and each appended group holds exactly the loaded zones with its id |
| `MotionControl.Session.AddTagged` | main.py:28-30 | the loop of `add_zone` calls over the loaded zones: afterwards the list is the loaded zones and each group's list is its earlier list followed by the loaded zones tagged with its id |
| `MotionControl.Session.AddLoaded` | main.py:29-30 | one iteration: the zone list gains the next loaded zone, and exactly the group with its id gains it |
| `MotionControl.Session.KeyPressed` | main.py:201-250 | the new mode is `NextMode`; Enter toggles the background; '=' hands over the records; no key changes nothing; each command's whole effect (`Effect`): an attribute edit keeps the zone objects and gives `EditFirstHit` and, for a group edit, the regrouped member lists; create appends `NewZone` in a fresh zone after the same zone objects (`AppendedFresh`) and keeps every member list; destroy leaves `Sweep` of the list with the surviving zones' records unchanged and every member list cut of exactly the removed zones; invert keeps the zone objects and gives `InvertHits`; load gives `LoadedAs` (a failed load keeps the records and lists, a load gives the loaded lists); every other key keeps the zone objects, the records and the lists; every zone of the old footprint that ends off the list, those a load or a destroy takes off included, keeps every attribute |
| `MotionControl.Session.OneShotKey` | main.py:206-223 | back to `Default`, then the edit `Decode` names is applied at the pointer with its whole effect (`Edited`: the same zone objects, the records and, for a group edit, the member lists); a rejected key keeps the records and every member list; zones off the list keep every attribute |
| `MotionControl.Session.OneShotEdit` | main.py:206-223 | the edit of a one-shot mode: `set_key` with the key, or `set_group`/`set_priority` with its digit, at the pointer (`Edited`, which keeps the zone objects); a non-digit edits nothing and keeps every member list; zones off the list keep every attribute |
| `MotionControl.Session.EditAtPointer` | main.py:206-223 | the zone objects stay and the records become `EditFirstHit` with the edit at the pointer; a group edit of a hit zone regroups it (`Regrouped`), any other edit keeps every member list; zones off the list keep every attribute |
| `MotionControl.Session.CommandKey` | main.py:225-250 | outside the one-shot modes: the mode is `NextMode`, Enter toggles the background, '=' hands over the records, and each command's whole effect (`Effect`): an attribute edit keeps the zone objects and gives `EditFirstHit` and, for a group edit, the regrouped member lists; create appends `NewZone` in a fresh zone after the same zone objects (`AppendedFresh`) and keeps every member list; destroy leaves `Sweep` of the list with the surviving zones' records unchanged and every member list cut of exactly the removed zones; invert keeps the zone objects and gives `InvertHits`; load gives `LoadedAs` (a failed load keeps the records and lists, a load gives the loaded lists); every other key keeps the zone objects, the records and the lists; every zone of the old footprint that ends off the list, those a load or a destroy takes off included, keeps every attribute |
| `MotionControl.Session.ModeKey` | main.py:226-250 | the mode keys and Enter change only the mode and the armed flag |
| `MotionControl.Session.EditingKey` | main.py:228-247 | '2' creates, '3' destroys, '7' inverts, '-' loads and '=' saves, each at the pointer, each with its whole `Effect` on records and member lists; every zone of the old footprint that ends off the list, those a load or a destroy takes off included, keeps every attribute |
| `MotionControl.Session.ZoneKey` | main.py:228-237 | '2' appends `NewZone` in a fresh zone after the same zone objects (`AppendedFresh`), keeping every member list, '3' leaves `Sweep` with survivors unchanged and member lists cut of exactly the removed zones (`Destroyed`), '7' keeps the zone objects and gives `InvertHits`, keeping every member list; every zone of the old footprint that ends off the list keeps every attribute |
| `MotionControl.Session.SaveDict` | main.py:247 | the dictionary saved is "zones" mapped to the records of the zone list |
| `MotionControl.Session.DestroyZone` | main.py:87-90 | the list becomes `Sweep` of the old one: zones not under the pointer stay, no hit means no change, and the first hit is gone; every group list becomes its old list without the removed zones |
| `MotionControl.Session.DestroyLoop` | main.py:87-90 | the loop that removes while iterating leaves `Sweep` of the old list, every group list without exactly the removed zones, and the invariant |
| `MotionControl.Session.DestroySweep` | main.py:87-90 | the walk of the loop ends with the list being `SweepAt` of the old list and the group lists cut of the removed zones |
| `MotionControl.Session.DestroyIter` | main.py:88-90 | one iteration advances the walk state by exactly one original zone |
| `MotionControl.Session.DestroyStep` | main.py:88-90 | the slot's zone is cut from the list exactly when it is under the pointer |
| `MotionControl.Session.DestroyVisit` | main.py:88-90 | the slot's zone is removed exactly when it is under the pointer: the list loses that slot and every group list becomes its old list without that zone; otherwise nothing changes |
| `MotionControl.ExampleFirstZone` | main.py:35-56 | adding the 'w' zone to an empty session creates group 1 holding only it |
| `MotionControl.ExampleSession` | main.py:35-56 | adding the 'w' and 's' zones of group 1 gives the list [w, s] and group 1 holding [w, s] |
| `MotionControl.ExampleFirstFrame` | main.py:159-169 | first frame with both zones moving: only 'w' is pressed and the log gains its press |
| `MotionControl.ExampleSecondFrame` | main.py:159-169 | second frame with only 's' moving: 'w' is released and 's' pressed, in that order in the log |
| `MotionControl.ExampleFrames` | main.py:159-169 | the two frames on the example session: pressed flags (true, false) then (false, true) and the log [press w, release w, press s] |
| `MotionControl.TwoFrameSession` | main.py:159-169 | the whole example built from an empty session: the same flags and log |

## Left out

- OpenCV is not modelled: capture, filters, frame differencing, the window and the main loop (main.py:143-156, 308-337). The numpy sum of a zone's slice of the difference frame is given to `TestZones`/`Detect` as one integer per zone (`sums`).
- Rendering (`draw_zones`, `draw_current_mode`, `draw_frame`) is display only and is not modelled.
- The pynput key controller is a foreign side effect. Its `press`/`release` calls are recorded in the ghost `log`.
- The captured background is frame data. It is reduced to the `armed` flag, which Enter toggles and which gates `test_zones`.
- The save manager's dialogs, files, JSON and `last_save.ini` are not modelled, nor the startup load of the last save (main.py:310-311). `LoadConfig` takes the manager's result as a `LoadOutcome` parameter. `KeyPressed` returns the dictionary handed to `save` rather than writing it; a cancelled save dialog is not modelled.
- Keys are code points (`Option<int>` on a zone), not one-character strings. `chr` raising for codes out of range is not modelled.
- `int(chr(key))` also accepts non-ASCII Unicode digits. `Keys.ParseDigit` accepts only '0' to '9'.
- The error messages printed by `load_config` and `key_pressed` are not modelled.
- The `False` that `activate_zone` returns on its guard is not modelled, because no caller reads it.
- `InputZone.get_w`/`get_h` have no contract of their own. They are stated through `SetSize` and `SetPosition`.
- `MotionControl.Session.FirstHitIndex`: `set_key`, `set_group` and `set_priority` each have their own copy of this search loop in main.py; the model shares one method.
