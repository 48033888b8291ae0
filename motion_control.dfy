/**
 * The editing and arbitration core of main.py: the module globals become one
 * Session object holding the zone list, the group list, the editor mode, the
 * pointer and selection state, the armed flag (a captured background) and a
 * ghost log of the key controller's press/release calls.
 */
module MotionControl {
  import opened Wrappers
  import opened InputZones
  import opened InputGroups
  import opened Editing
  import opened Arbitration
  import opened Keys
  import Config

  /** The pointer events main.py reacts to; any other event is ignored. */
  datatype MouseEventKind = MouseMove | LButtonDown | LButtonUp | OtherMouseEvent

  /**
   * What the save manager hands back to `load_config`: it raised (bad file),
   * it returned None (dialog cancelled), or the decoded records of a save file.
   */
  datatype LoadOutcome = LoadFailed | LoadCancelled | Loaded(records: seq<ZoneRecord>)

  /** `find_group`: the first group with the given id, if any. */
  function Find(gs: seq<InputGroup>, id: int): (r: Option<InputGroup>)
    ensures r.Some? ==> r.value in gs && r.value.id == id
    ensures r.None? <==> forall g :: g in gs ==> g.id != id
  {
    if gs == [] then None
    else if gs[0].id == id then Some(gs[0])
    else Find(gs[1..], id)
  }

  /** The groups as a directory from id to member list; the first group with an id wins, as with `Find`. */
  ghost function DirOf(gs: seq<InputGroup>): map<int, seq<InputZone>>
    reads gs`zones
  {
    if gs == [] then map[] else DirOf(gs[1..])[gs[0].id := gs[0].zones]
  }

  /** Looking an id up in the directory gives the member list of the group `Find` returns. */
  lemma {:induction false} DirOfFind(gs: seq<InputGroup>, id: int)
    ensures DirMembers(DirOf(gs), Some(id)) == match Find(gs, id) case None => [] case Some(g) => g.zones
  {
    if gs != [] {
      DirOfFind(gs[1..], id);
    }
  }

  /** The zones of `zs` whose group id is `id`, in list order: what `add_zone` appends to that group. */
  function WithGroup(zs: seq<InputZone>, id: int): (r: seq<InputZone>)
    reads zs`group
    ensures |r| <= |zs|
  {
    if zs == [] then []
    else WithGroup(zs[..|zs| - 1], id) + if zs[|zs| - 1].group == Some(id) then [zs[|zs| - 1]] else []
  }

  /** The zones of `zs` whose tag in `tags` is `id`, in list order. */
  function Tagged(zs: seq<InputZone>, tags: seq<Option<int>>, id: int): (r: seq<InputZone>)
    requires |tags| == |zs|
    ensures |r| <= |zs|
  {
    if zs == [] then []
    else Tagged(zs[..|zs| - 1], tags[..|zs| - 1], id) + if tags[|zs| - 1] == Some(id) then [zs[|zs| - 1]] else []
  }

  /** Tagging each zone with its own group id gives back `WithGroup`. */
  lemma {:induction false} WithGroupTagged(zs: seq<InputZone>, tags: seq<Option<int>>, id: int)
    requires |tags| == |zs| && forall k :: 0 <= k < |zs| ==> zs[k].group == tags[k]
    ensures WithGroup(zs, id) == Tagged(zs, tags, id)
  {
    if zs != [] {
      WithGroupTagged(zs[..|zs| - 1], tags[..|zs| - 1], id);
    }
  }

  /** Appending a tagged zone appends it to the filtered list exactly when its tag is the id. */
  lemma TaggedSnoc(zs: seq<InputZone>, tags: seq<Option<int>>, z: InputZone, t: Option<int>, id: int)
    requires |tags| == |zs|
    ensures Tagged(zs + [z], tags + [t], id) == Tagged(zs, tags, id) + if t == Some(id) then [z] else []
  {
    assert (zs + [z])[..|zs|] == zs && (tags + [t])[..|zs|] == tags;
  }

  /** No zone tagged with the id leaves the filtered list empty. */
  lemma {:induction false} TaggedNone(zs: seq<InputZone>, tags: seq<Option<int>>, id: int)
    requires |tags| == |zs| && forall k :: 0 <= k < |zs| ==> tags[k] != Some(id)
    ensures Tagged(zs, tags, id) == []
  {
    if zs != [] {
      TaggedNone(zs[..|zs| - 1], tags[..|zs| - 1], id);
    }
  }

  /** Taking one more element of a sequence appends that element. */
  lemma TakeSnoc<T>(s: seq<T>, i: nat)
    requires i < |s|
    ensures s[..i + 1] == s[..i] + [s[i]]
  {
  }

  /** Appending a group changes no earlier lookup; it is found only for an id no earlier group has. */
  lemma {:induction false} FindAppend(gs: seq<InputGroup>, g: InputGroup, id: int)
    ensures Find(gs + [g], id) == if Find(gs, id).Some? then Find(gs, id) else if g.id == id then Some(g) else None
  {
    if gs != [] {
      assert (gs + [g])[1..] == gs[1..] + [g];
      FindAppend(gs[1..], g, id);
    }
  }

  /** With distinct ids, looking up a group's id finds that very group. */
  lemma {:induction false} FindUnique(gs: seq<InputGroup>, g: InputGroup)
    requires g in gs
    requires forall i, j :: 0 <= i < j < |gs| ==> gs[i].id != gs[j].id
    ensures Find(gs, g.id) == Some(g)
  {
    if gs[0] != g {
      var k :| 0 <= k < |gs| && gs[k] == g;
      assert gs[0].id != gs[k].id;
      assert gs[1..][k - 1] == g;
      FindUnique(gs[1..], g);
    }
  }

  class Session {
    var zones: seq<InputZone>
    var groups: seq<InputGroup>
    var mousePos: (int, int)
    var mode: InputMode
    var selected: InputZone?
    var initialPosition: (int, int)
    var selectionOffset: (int, int)
    var armed: bool
    ghost var log: seq<Actuation>
    ghost var ZoneRepr: set<InputZone>
    ghost var GroupRepr: set<InputGroup>

    /**
     * The registry invariant, except that zones in `pending` (one that is
     * between leaving a group and joining its new one) belong to no group.
     * Every zone of the list is distinct; group ids are distinct; every member
     * of a group carries that group's id and appears once; every grouped zone
     * of the list is a member of the group with its id.
     */
    ghost predicate Inv(pending: set<InputZone>)
      reads this`zones, this`groups, this`ZoneRepr, this`GroupRepr
      reads ZoneRepr`group, GroupRepr`zones
    {
      Footprint() && ZonesDistinct() && IdsDistinct() && MembersOk() && AllLinked(pending)
    }

    /** Every zone the session can reach is in ZoneRepr, every group in GroupRepr. */
    ghost predicate Footprint()
      reads this`zones, this`groups, this`ZoneRepr, this`GroupRepr, GroupRepr`zones
    {
      && (forall z :: z in zones ==> z in ZoneRepr)
      && (forall g :: g in groups ==> g in GroupRepr)
      && (forall g, m :: g in groups && m in g.zones ==> m in ZoneRepr)
    }

    ghost predicate ZonesDistinct()
      reads this`zones
    {
      forall i, j :: 0 <= i < j < |zones| ==> zones[i] != zones[j]
    }

    ghost predicate IdsDistinct()
      reads this`groups
    {
      forall i, j :: 0 <= i < j < |groups| ==> groups[i].id != groups[j].id
    }

    /** Every member of a group carries the group's id and appears once. */
    ghost predicate MembersOk()
      reads this`groups, this`GroupRepr, this`ZoneRepr, ZoneRepr`group, GroupRepr`zones
    {
      && (forall g, m :: g in groups && g in GroupRepr && m in g.zones && m in ZoneRepr ==> m.group == Some(g.id))
      && (forall g, i, j :: g in groups && g in GroupRepr && 0 <= i < j < |g.zones| ==> g.zones[i] != g.zones[j])
    }

    /** Every grouped zone of the list, except the pending ones, is a member of its group; pending ones are in no group. */
    ghost predicate AllLinked(pending: set<InputZone>)
      reads this`zones, this`groups, this`GroupRepr, this`ZoneRepr, ZoneRepr`group, GroupRepr`zones
    {
      && (forall z :: z in zones && z in ZoneRepr && z !in pending ==> Linked(z))
      && (forall z, g :: z in pending && g in groups && g in GroupRepr ==> z !in g.zones)
    }

    /** A zone is linked when it is ungrouped or a member of the group with its id. */
    ghost predicate Linked(z: InputZone)
      reads this`groups, this`GroupRepr, z`group, GroupRepr`zones
    {
      z.group.Some? ==>
        var f := Find(groups, z.group.value);
        f.Some? && f.value in GroupRepr && z in f.value.zones
    }

    ghost predicate Valid()
      reads this`zones, this`groups, this`ZoneRepr, this`GroupRepr
      reads ZoneRepr`group, GroupRepr`zones
    {
      Inv({})
    }

    /** All pressed members of any one group share one priority. */
    ghost predicate PrioritiesAgree()
      reads this`groups, this`GroupRepr, this`ZoneRepr, GroupRepr`zones, ZoneRepr`pressed, ZoneRepr`priority
    {
      forall g, a, b ::
        (g in groups && g in GroupRepr && a in g.zones && b in g.zones &&
         a in ZoneRepr && b in ZoneRepr && a.pressed && b.pressed) ==> a.priority == b.priority
    }

    /** The registry invariant depends only on the lists and on the zones' group ids. */
    twostate lemma ValidFramed()
      requires old(Valid())
      requires zones == old(zones) && groups == old(groups) && ZoneRepr == old(ZoneRepr) && GroupRepr == old(GroupRepr)
      requires forall z :: z in ZoneRepr ==> z.group == old(z.group)
      requires forall g :: g in GroupRepr ==> g.zones == old(g.zones)
      ensures Valid()
    {
    }

    /** The zone list as attribute records, in list order. */
    function View(): seq<ZoneRecord>
      reads this`zones, zones
    {
      Records(zones)
    }

    constructor ()
      ensures Valid()
      ensures zones == [] && groups == [] && mode == Default && selected == null
      ensures mousePos == (0, 0) && initialPosition == (0, 0) && selectionOffset == (0, 0)
      ensures !armed && log == [] && ZoneRepr == {} && GroupRepr == {}
    {
      zones, groups := [], [];
      mousePos, mode, selected := (0, 0), Default, null;
      initialPosition, selectionOffset := (0, 0), (0, 0);
      armed := false;
      log := [];
      ZoneRepr, GroupRepr := {}, {};
    }

    /**
     * `add_to_group`: an ungrouped zone joins nothing; otherwise it is appended
     * to the group with its id, and a new group is appended when none exists.
     */
    method AddToGroup(zone: InputZone)
      requires Inv({zone}) && zone in zones
      modifies this`groups, this`GroupRepr, GroupRepr`zones
      ensures Valid()
      ensures fresh(GroupRepr - old(GroupRepr)) && old(GroupRepr) <= GroupRepr
      ensures forall g :: g in old(groups) && Some(g.id) != zone.group ==> g.zones == old(g.zones)
      ensures forall g :: g in old(groups) ==> old(g.zones) <= g.zones
      ensures zone.group.None? ==> groups == old(groups)
      ensures zone.group.Some? && old(Find(groups, zone.group.value)).Some? ==>
        groups == old(groups) &&
        old(Find(groups, zone.group.value)).value.zones == old(Find(groups, zone.group.value).value.zones) + [zone]
      ensures zone.group.Some? && old(Find(groups, zone.group.value)).None? ==>
        |groups| == |old(groups)| + 1 && groups[..|old(groups)|] == old(groups) &&
        groups[|old(groups)|].id == zone.group.value && groups[|old(groups)|].zones == [zone]
      ensures forall g :: g in old(groups) ==> g.zones == old(g.zones) + (if Some(g.id) == zone.group then [zone] else [])
      ensures GroupAppended(old(groups), zone.group, [zone])
    {
      if zone.group.None? {
        return;
      }
      var id := zone.group.value;
      var i := 0;
      while i < |groups|
        invariant 0 <= i <= |groups|
        invariant Find(groups, id) == Find(groups[i..], id)
      {
        if groups[i].id == id {
          JoinGroup(groups[i], zone);
          return;
        }
        assert groups[i..][1..] == groups[i+1..];
        i := i + 1;
      }
      NewGroup(zone);
    }

    /** The join step of `add_to_group`: the zone is appended to the existing group with its id. */
    method JoinGroup(g: InputGroup, zone: InputZone)
      requires Inv({zone}) && zone in zones && zone.group.Some?
      requires Find(groups, zone.group.value) == Some(g)
      modifies g`zones
      ensures Valid()
      ensures g.zones == old(g.zones) + [zone]
      ensures forall h :: h in groups ==> h.zones == old(h.zones) + (if Some(h.id) == zone.group then [zone] else [])
    {
      forall h | h in groups && Some(h.id) == zone.group
        ensures h == g
      {
        FindUnique(groups, h);
      }
      g.AddZone(zone);
      assert Footprint();
      assert MembersOk();
      assert AllLinked({});
    }

    /**
     * The group list is `before` with at most one group appended: one with
     * id `id` holding `ms`, appended exactly when `before` has no group with
     * that id.
     */
    ghost predicate GroupAppended(before: seq<InputGroup>, id: Option<int>, ms: seq<InputZone>)
      reads this`groups, groups
    {
      && |before| <= |groups| && groups[..|before|] == before
      && if id.Some? && Find(before, id.value).None? then
           |groups| == |before| + 1 && groups[|before|].id == id.value && groups[|before|].zones == ms
         else
           |groups| == |before|
    }

    /** The group list and every group's member list are as they were. */
    twostate predicate GroupsKept()
      reads this`groups, groups
    {
      groups == old(groups) && forall g :: g in groups ==> g.zones == old(g.zones)
    }

    /**
     * The member lists after `z` moved to the group with id `id`: every old
     * group's list loses `z` and the one with that id gains it at its end, or
     * a new group holding only `z` is appended; `z` ends a member of that
     * group alone.
     */
    twostate predicate Regrouped(z: InputZone, id: int)
      reads this`groups, groups
    {
      && old(groups) <= groups
      && (forall g :: g in groups ==> (z in g.zones <==> g.id == id))
      && (forall g :: g in old(groups) ==> g.zones == Without(old(g.zones), {z}) + (if g.id == id then [z] else []))
      && GroupAppended(old(groups), Some(id), [z])
    }

    /** The zone list is the old one, the same objects in the same order, with one fresh zone at its end. */
    twostate predicate AppendedFresh()
      reads this`zones
    {
      |zones| == |old(zones)| + 1 && zones[..|old(zones)|] == old(zones) && fresh(zones[|old(zones)|])
    }

    /** The zones of the list, as a set. */
    ghost function Listed(): set<InputZone>
      reads this`zones
    {
      set z | z in zones
    }

    /** The zones of the footprint that are off the list: those of an earlier layout. */
    ghost function Stale(): set<InputZone>
      reads this`ZoneRepr, this`zones
    {
      set z | z in ZoneRepr && z !in zones
    }

    /** The creation step of `add_to_group`: a new group holding only the zone is appended. */
    method NewGroup(zone: InputZone)
      requires Inv({zone}) && zone in zones && zone.group.Some?
      requires Find(groups, zone.group.value).None?
      modifies this`groups, this`GroupRepr
      ensures Valid()
      ensures fresh(GroupRepr - old(GroupRepr)) && old(GroupRepr) <= GroupRepr
      ensures |groups| == |old(groups)| + 1 && groups[..|old(groups)|] == old(groups)
      ensures groups[|old(groups)|].id == zone.group.value && groups[|old(groups)|].zones == [zone]
    {
      var id := zone.group.value;
      var newGroup := new InputGroup(id);
      newGroup.AddZone(zone);
      ghost var before := groups;
      groups := groups + [newGroup];
      GroupRepr := GroupRepr + {newGroup};
      assert Footprint();
      assert IdsDistinct();
      assert MembersOk();
      assert AllLinked({}) by {
        forall z | z in zones && z in ZoneRepr && z.group.Some?
          ensures Linked(z)
        {
          FindAppend(before, newGroup, z.group.value);
        }
      }
    }

    /**
     * `remove_from_group`: a grouped zone is removed (first occurrence) from
     * the group with its id; the group stays in the list even when it becomes
     * empty. An ungrouped zone changes nothing.
     */
    method RemoveFromGroup(zone: InputZone)
      requires Valid() && zone in ZoneRepr && Linked(zone)
      modifies GroupRepr`zones
      ensures Inv({zone})
      ensures forall g :: g in groups && Some(g.id) != zone.group ==> g.zones == old(g.zones)
      ensures forall g, m :: g in groups && m in g.zones ==> m in old(g.zones)
      ensures zone.group.Some? ==>
        var g := Find(groups, zone.group.value).value;
        zone in old(g.zones) && g.zones == RemoveFirst(old(g.zones), zone)
      ensures forall g :: g in groups ==> g.zones == Without(old(g.zones), {zone})
    {
      if zone.group.None? {
        assert AllLinked({zone});
        forall g | g in groups
          ensures g.zones == Without(g.zones, {zone})
        {
          WithoutNothing(g.zones, {zone});
        }
        return;
      }
      var id := zone.group.value;
      var i := 0;
      while i < |groups|
        invariant 0 <= i <= |groups|
        invariant Find(groups, id) == Find(groups[i..], id)
      {
        if groups[i].id == id {
          LeaveGroup(groups[i], zone);
          return;
        }
        assert groups[i..][1..] == groups[i+1..];
        i := i + 1;
      }
    }

    /** The removal step of `remove_from_group`: the zone leaves the group with its id. */
    method LeaveGroup(g: InputGroup, zone: InputZone)
      requires Valid() && zone in ZoneRepr && zone.group.Some?
      requires Find(groups, zone.group.value) == Some(g) && zone in g.zones
      modifies g`zones
      ensures Inv({zone})
      ensures g.zones == RemoveFirst(old(g.zones), zone)
      ensures forall m :: m in g.zones ==> m in old(g.zones)
      ensures forall h :: h in groups ==> h.zones == Without(old(h.zones), {zone})
    {
      forall h | h in groups && h != g
        ensures h.zones == Without(h.zones, {zone})
      {
        FindUnique(groups, h);
        assert zone !in h.zones;
        WithoutNothing(h.zones, {zone});
      }
      RemoveFirstIsWithout(g.zones, zone);
      RemoveFirstDistinct(g.zones, zone);
      g.RemoveZone(zone);
      assert Footprint();
      assert MembersOk();
      assert AllLinked({zone}) by {
        forall z, h | z in {zone} && h in groups && h in GroupRepr
          ensures z !in h.zones
        {
          if h != g {
            assert h.id != g.id;
          }
        }
      }
    }

    /** `add_zone`: the zone is appended to the list and joins its group. */
    method AddZone(zone: InputZone)
      requires Valid() && zone !in ZoneRepr
      modifies this`zones, this`ZoneRepr, this`groups, this`GroupRepr, GroupRepr`zones
      ensures Valid()
      ensures zones == old(zones) + [zone]
      ensures ZoneRepr == old(ZoneRepr) + {zone}
      ensures fresh(GroupRepr - old(GroupRepr)) && old(GroupRepr) <= GroupRepr
      ensures forall g :: g in old(groups) && Some(g.id) != zone.group ==> g.zones == old(g.zones)
      ensures zone.group.Some? ==> var g := Find(groups, zone.group.value);
        g.Some? && g.value.zones == (if g.value in old(groups) then old(g.value.zones) else []) + [zone]
      ensures old(groups) <= groups && (zone.group.None? ==> groups == old(groups))
      ensures forall g :: g in old(groups) ==> old(g.zones) <= g.zones
      ensures forall g :: g in old(groups) ==> g.zones == old(g.zones) + (if Some(g.id) == zone.group then [zone] else [])
      ensures GroupAppended(old(groups), zone.group, [zone])
    {
      ZoneRepr := ZoneRepr + {zone};
      zones := zones + [zone];
      assert Footprint();
      assert ZonesDistinct();
      assert MembersOk();
      assert AllLinked({zone});
      AddToGroup(zone);
    }

    /** `remove_zone`: the zone leaves the list (first occurrence) and its group. */
    method RemoveZone(zone: InputZone)
      requires Valid() && zone in zones
      modifies this`zones, GroupRepr`zones
      ensures Valid()
      ensures zones == RemoveFirst(old(zones), zone) && zone !in zones
      ensures forall m :: m in zones <==> m in old(zones) && m != zone
      ensures forall g :: g in groups ==> zone !in g.zones
      ensures forall g, m :: g in groups && m in g.zones ==> m in old(g.zones)
      ensures forall g :: g in groups && Some(g.id) != zone.group ==> g.zones == old(g.zones)
      ensures zone.group.Some? ==>
        var g := Find(groups, zone.group.value).value;
        g.zones == RemoveFirst(old(g.zones), zone)
      ensures forall g :: g in groups ==> g.zones == Without(old(g.zones), {zone})
    {
      RemoveFirstDistinct(zones, zone);
      zones := RemoveFirst(zones, zone);
      assert Footprint();
      assert ZonesDistinct();
      assert AllLinked({});
      RemoveFromGroup(zone);
      assert AllLinked({});
    }

    /**
     * The body of `set_group` for the zone it found: leave the old group, take
     * the new id, join the group with that id.
     */
    method Regroup(zone: InputZone, group: int)
      requires Valid() && zone in zones
      modifies zone`group, this`groups, this`GroupRepr, GroupRepr`zones
      ensures Valid()
      ensures zone.group == Some(group)
      ensures fresh(GroupRepr - old(GroupRepr)) && old(GroupRepr) <= GroupRepr && old(groups) <= groups
      ensures forall g :: g in groups ==> (zone in g.zones <==> g.id == group)
      ensures forall g :: g in old(groups) ==> g.zones == Without(old(g.zones), {zone}) + (if g.id == group then [zone] else [])
      ensures GroupAppended(old(groups), Some(group), [zone])
    {
      RemoveFromGroup(zone);
      Rejoin(zone, group);
    }

    /** The second half of `regroup`: the zone, now in no group, takes the id and joins that group. */
    method Rejoin(zone: InputZone, group: int)
      requires Inv({zone}) && zone in zones
      modifies zone`group, this`groups, this`GroupRepr, GroupRepr`zones
      ensures Valid()
      ensures zone.group == Some(group)
      ensures fresh(GroupRepr - old(GroupRepr)) && old(GroupRepr) <= GroupRepr && old(groups) <= groups
      ensures forall g :: g in groups ==> (zone in g.zones <==> g.id == group)
      ensures forall g :: g in old(groups) ==> g.zones == old(g.zones) + (if g.id == group then [zone] else [])
      ensures GroupAppended(old(groups), Some(group), [zone])
    {
      assert forall g :: g in groups ==> zone !in g.zones;
      zone.group := Some(group);
      assert Footprint();
      assert MembersOk();
      assert AllLinked({zone});
      AddToGroup(zone);
      forall g | g in groups
        ensures zone in g.zones <==> g.id == group
      {
        if g !in old(groups) {
          assert g == groups[|old(groups)|];
        }
      }
    }

    /** The member list of the zone's group (found with `find_group`); empty for an ungrouped zone. */
    function Members(zone: InputZone): (ms: seq<InputZone>)
      reads this`groups, zone`group, groups
      ensures zone.group.None? ==> ms == []
      ensures ms != [] ==> exists g :: g in groups && Some(g.id) == zone.group && ms == g.zones
    {
      GroupMembers(zone.group)
    }

    /** `find_group(id).zones`, or no zones when there is no id or no such group. */
    function GroupMembers(id: Option<int>): seq<InputZone>
      reads this`groups, groups
    {
      if id.None? then []
      else match Find(groups, id.value)
        case None => []
        case Some(g) => g.zones
    }

    /** Every zone the session knows, by its attribute record. */
    ghost function World(): map<InputZone, ZoneRecord>
      reads this`ZoneRepr, ZoneRepr
    {
      map m | m in ZoneRepr :: m.Record()
    }

    /** The snapshot of a session holding exactly two zones. */
    lemma WorldOfTwo(a: InputZone, b: InputZone)
      requires ZoneRepr == {a, b}
      ensures World() == map[a := a.Record(), b := b.Record()]
    {
    }

    /** The group list as a directory: each group id with the member list of its group. */
    ghost function Directory(): map<int, seq<InputZone>>
      reads this`groups, groups`zones
    {
      DirOf(groups)
    }

    /** The loop of `can_activate`: no other member is a pressed one of strictly higher priority in the same group. */
    static function NoBlocker(ms: seq<InputZone>, zone: InputZone): (r: bool)
      reads ms, zone
      ensures r <==> forall m :: m in ms && m != zone ==> !Blocks(m.Record(), zone.Record())
    {
      if ms == [] then true
      else if ms[0] != zone && Blocks(ms[0].Record(), zone.Record()) then false
      else NoBlocker(ms[1..], zone)
    }

    /**
     * `can_activate`: an ungrouped zone always may; a grouped one may unless
     * another member of its group, carrying the same group id, is pressed
     * with strictly higher priority.
     */
    function CanActivate(zone: InputZone): (r: bool)
      requires zone.group.Some? ==> Find(groups, zone.group.value).Some?
      reads this, zone, groups, Members(zone)
      ensures zone.group.None? ==> r
      ensures r <==> forall m :: m in Members(zone) && m != zone ==> !Blocks(m.Record(), zone.Record())
    {
      if zone.group.None? then true
      else NoBlocker(Find(groups, zone.group.value).value.zones, zone)
    }

    /** `deactivate_zone`: a pressed zone is released (one release call when it has a key); otherwise nothing happens. */
    method DeactivateZone(zone: InputZone)
      modifies zone`pressed, this`log
      ensures !zone.pressed
      ensures log == old(log) + (if old(zone.pressed) then ReleaseOf(zone.key) else [])
      ensures old(PrioritiesAgree()) ==> PrioritiesAgree()
    {
      if !zone.pressed {
        return;
      }
      if zone.key.Some? {
        log := log + [Release(zone.key.value)];
      }
      zone.pressed := false;
    }

    /**
     * `activate_zone`: nothing happens to a pressed or blocked zone. Otherwise
     * the zone is pressed (one press call when it has a key) and every other
     * pressed member of its group with strictly lower priority is released,
     * in member order; equal priorities and other groups are left alone.
     */
    method ActivateZone(zone: InputZone)
      requires Valid() && zone in zones
      modifies ZoneRepr`pressed, this`log
      ensures Valid()
      ensures old(zone.pressed) || !old(CanActivate(zone)) ==>
        log == old(log) && forall m :: m in ZoneRepr ==> m.pressed == old(m.pressed)
      ensures !old(zone.pressed) && old(CanActivate(zone)) ==>
        && zone.pressed
        && log == old(log) + PressOf(zone.key) + old(CascadeLog(Records(Members(zone)), zone.Record()))
        && forall m :: m in ZoneRepr && m != zone ==>
             m.pressed == (old(m.pressed) && !(m in old(Members(zone)) && Lowered(old(m.Record()), old(zone.Record()))))
      ensures old(PrioritiesAgree()) ==> PrioritiesAgree()
    {
      if zone.pressed || !CanActivate(zone) {
        return;
      }
      MembersOfListed(zone);
      PressAndCascade(zone);
      if old(PrioritiesAgree()) {
        ActivationKeepsAgreement(zone);
      }
    }

    /**
     * A successful activation keeps the pressed members of every group at one
     * priority: nothing blocked the zone, so no pressed member is above it,
     * and every pressed member below it was released.
     */
    twostate lemma ActivationKeepsAgreement(zone: InputZone)
      requires old(Valid()) && old(PrioritiesAgree()) && old(zone in zones) && old(CanActivate(zone))
      requires groups == old(groups) && GroupRepr == old(GroupRepr) && ZoneRepr == old(ZoneRepr)
      requires forall g :: g in GroupRepr ==> g.zones == old(g.zones)
      requires forall m :: m in ZoneRepr ==> m.priority == old(m.priority) && m.group == old(m.group)
      requires forall m :: m in ZoneRepr && m != zone ==>
        m.pressed == (old(m.pressed) && !(m in old(Members(zone)) && Lowered(old(m.Record()), old(zone.Record()))))
      ensures PrioritiesAgree()
    {
      forall g, a, b |
        g in groups && g in GroupRepr && a in g.zones && b in g.zones &&
        a in ZoneRepr && b in ZoneRepr && a.pressed && b.pressed
        ensures a.priority == b.priority
      {
        if a == zone || b == zone {
          FindUnique(groups, g);
        }
      }
    }

    /** What the cascade needs of a zone's group: it exists, and its members are distinct zones of the session. */
    ghost predicate MembersReady(zone: InputZone)
      reads this`groups, this`ZoneRepr, zone`group, groups
    {
      && (zone.group.Some? ==> Find(groups, zone.group.value).Some?)
      && (forall m :: m in Members(zone) ==> m in ZoneRepr)
      && (forall a, b :: 0 <= a < b < |Members(zone)| ==> Members(zone)[a] != Members(zone)[b])
    }

    lemma MembersOfListed(zone: InputZone)
      requires Valid() && zone in zones
      ensures MembersReady(zone)
    {
      assert Linked(zone);
    }

    /**
     * The part of `activate_zone` after its guard: press the zone, then run
     * the cascade over the members of its group.
     */
    method PressAndCascade(zone: InputZone)
      requires !zone.pressed && zone in ZoneRepr && MembersReady(zone)
      modifies ZoneRepr`pressed, this`log
      ensures zone.pressed
      ensures log == old(log) + PressOf(zone.key) + old(CascadeLog(Records(Members(zone)), zone.Record()))
      ensures forall m :: m in ZoneRepr && m != zone ==>
        m.pressed == (old(m.pressed) && !(m in Members(zone) && Lowered(old(m.Record()), old(zone.Record()))))
    {
      ghost var zrec := zone.Record();
      ghost var before := Records(Members(zone));
      if zone.key.Some? {
        log := log + [Press(zone.key.value)];
      }
      zone.pressed := true;
      if zone.group.None? {
        return;
      }
      var group := Find(groups, zone.group.value).value;
      ReleaseLower(group.zones, zone, before, zrec);
    }

    /**
     * The cascade loop of `activate_zone`: walking the member list, every
     * other member of the same group with strictly lower priority that is
     * pressed is deactivated. `before` holds the members' records as they were
     * when the activation began and `zrec` the activated zone's.
     */
    method ReleaseLower(ms: seq<InputZone>, zone: InputZone, ghost before: seq<ZoneRecord>, ghost zrec: ZoneRecord)
      requires forall a, b :: 0 <= a < b < |ms| ==> ms[a] != ms[b]
      requires forall m :: m in ms ==> m in ZoneRepr
      requires |before| == |ms| && zrec.group == zone.group && zrec.priority == zone.priority
      requires forall k :: 0 <= k < |ms| && ms[k] != zone ==> before[k] == ms[k].Record()
      requires forall k :: 0 <= k < |ms| && ms[k] == zone ==> before[k].priority == zrec.priority
      modifies ZoneRepr`pressed, this`log
      ensures log == old(log) + CascadeLog(before, zrec)
      ensures forall m :: m in ZoneRepr && m != zone ==>
        m.pressed == (old(m.pressed) && !(m in ms && Lowered(old(m.Record()), zrec)))
      ensures zone.pressed == old(zone.pressed)
    {
      ghost var released: seq<Actuation> := [];
      for i := 0 to |ms|
        invariant log == old(log) + released
        invariant released == CascadeLog(before[..i], zrec)
        invariant forall k :: 0 <= k < |ms| && ms[k] != zone ==>
          ms[k].pressed == (before[k].pressed && !(k < i && Lowered(before[k], zrec)))
        invariant forall m :: m in ZoneRepr && m !in ms ==> m.pressed == old(m.pressed)
        invariant zone.pressed == old(zone.pressed)
      {
        var z := ms[i];
        CascadeLogSplit(before, zrec, i);
        ghost var step := if Lowered(before[i], zrec) then ReleaseOf(before[i].key) else [];
        released := released + step;
        if z == zone {
          continue;
        }
        assert z.Record() == before[i];
        if z.group == zone.group && z.priority < zone.priority && z.pressed {
          DeactivateZone(z);
        }
      }
      assert before[..|ms|] == before;
      forall m | m in ZoneRepr && m in ms && m != zone
        ensures m.pressed == (old(m.pressed) && !Lowered(old(m.Record()), zrec))
      {
        var k :| 0 <= k < |ms| && ms[k] == m;
      }
    }

    /**
     * `test_zones`: the zones are visited in list order; a triggered zone is
     * activated, any other one deactivated. The zones' new state and the key
     * calls are those `Run` computes on the snapshot taken before. Afterwards
     * no untriggered zone is pressed, every ungrouped zone is pressed exactly
     * when triggered, and agreement of priorities inside the groups is kept.
     */
    method TestZones(sums: seq<int>)
      requires Valid() && |sums| == |zones|
      modifies ZoneRepr`pressed, this`log
      ensures Valid()
      ensures forall i :: 0 <= i < |zones| && !Triggered(sums[i], zones[i].inverted) ==> !zones[i].pressed
      ensures forall i :: 0 <= i < |zones| && zones[i].group.None? ==>
        zones[i].pressed == Triggered(sums[i], zones[i].inverted)
      ensures old(PrioritiesAgree()) ==> PrioritiesAgree()
      ensures Directory() == old(Directory()) && old(Covered())
      ensures World() == Run(old(World()), Directory(), zones, sums).0
      ensures log == old(log) + Run(old(World()), Directory(), zones, sums).1
    {
      ghost var w := World();
      ghost var dir := Directory();
      SnapshotClosed();
      TestLoop(sums, w, dir);
      assert zones[..|zones|] == zones && sums[..|zones|] == sums;
      Settled(w, dir, sums);
    }

    /** The zones' pressed flags after a run that started from `w`, as `RunSettles` promises them. */
    lemma Settled(w: map<InputZone, ZoneRecord>, dir: map<int, seq<InputZone>>, sums: seq<int>)
      requires Valid() && |sums| == |zones| && Closed(w, dir) && (forall z :: z in zones ==> z in w)
      requires World() == Run(w, dir, zones, sums).0
      ensures forall i :: 0 <= i < |zones| && !Triggered(sums[i], zones[i].inverted) ==> !zones[i].pressed
      ensures forall i :: 0 <= i < |zones| && zones[i].group.None? ==>
        zones[i].pressed == Triggered(sums[i], zones[i].inverted)
    {
      RunSettles(w, dir, zones, sums);
      RunKeepsAttributes(w, dir, zones, sums);
      forall i | 0 <= i < |zones|
        ensures World()[zones[i]] == zones[i].Record()
      {
        assert zones[i] in ZoneRepr;
      }
    }

    /** The loop of `test_zones`, from the snapshot `w` and directory `dir` taken before it. */
    method TestLoop(sums: seq<int>, ghost w: map<InputZone, ZoneRecord>, ghost dir: map<int, seq<InputZone>>)
      requires Valid() && |sums| == |zones| && Ran(w, dir, log, 0, sums)
      modifies ZoneRepr`pressed, this`log
      ensures Valid() && Ran(w, dir, old(log), |zones|, sums)
      ensures old(PrioritiesAgree()) ==> PrioritiesAgree()
    {
      for i := 0 to |zones|
        invariant Valid()
        invariant old(PrioritiesAgree()) ==> PrioritiesAgree()
        invariant Ran(w, dir, old(log), i, sums)
      {
        TestStep(i, sums, w, dir, old(log));
      }
    }

    /** Every zone of the list and of the directory has a record in the snapshot. */
    ghost predicate Covered()
      reads this`zones, this`groups, this`ZoneRepr, groups, ZoneRepr
    {
      Closed(World(), Directory()) && forall z :: z in zones ==> z in World()
    }

    /** The snapshot's directory lists only zones the snapshot holds, and so do the zone list's members. */
    lemma SnapshotClosed()
      requires Valid()
      ensures Covered() && World().Keys == ZoneRepr
    {
      forall id: Option<int>, m | m in DirMembers(Directory(), id)
        ensures m in World()
      {
        DirOfFind(groups, id.value);
        var g := Find(groups, id.value).value;
      }
    }

    /** After the first i turns of `test_zones`, the zones and the log are those `Run` computes. */
    ghost predicate Ran(w: map<InputZone, ZoneRecord>, dir: map<int, seq<InputZone>>, log0: seq<Actuation>, i: nat, sums: seq<int>)
      reads this`zones, this`groups, this`ZoneRepr, groups, ZoneRepr, this`log
    {
      && w.Keys == ZoneRepr && dir == Directory()
      && RanTo(w, dir, log0, zones, sums, i, World(), log)
    }

    /** Turn i of `test_zones`. */
    method TestStep(i: nat, sums: seq<int>, ghost w: map<InputZone, ZoneRecord>, ghost dir: map<int, seq<InputZone>>,
                    ghost log0: seq<Actuation>)
      requires Valid() && i < |zones| == |sums| && Ran(w, dir, log0, i, sums)
      modifies ZoneRepr`pressed, this`log
      ensures Valid() && Ran(w, dir, log0, i + 1, sums)
      ensures old(PrioritiesAgree()) ==> PrioritiesAgree()
    {
      var zone := zones[i];
      var triggered := Triggered(sums[i], zone.inverted);
      ghost var before := World();
      ghost var logBefore := log;
      assert before[zone] == zone.Record();
      TestZone(zone, triggered);
      RunStep(w, dir, log0, zones, sums, i, before, logBefore, triggered, World(), log);
    }

    /**
     * One step of `test_zones`: the new state of the zones and the key calls
     * are those of `Turn` on the snapshot taken before. It never presses
     * another zone and never touches an ungrouped other zone; the zone ends
     * released when not triggered, and pressed when triggered and ungrouped.
     */
    method TestZone(zone: InputZone, triggered: bool)
      requires Valid() && zone in zones
      modifies ZoneRepr`pressed, this`log
      ensures Valid()
      ensures !triggered ==> !zone.pressed
      ensures triggered && zone.group.None? ==> zone.pressed
      ensures forall m :: m in ZoneRepr && m != zone && m.pressed ==> old(m.pressed)
      ensures forall m :: m in ZoneRepr && m != zone && m.group.None? ==> m.pressed == old(m.pressed)
      ensures old(PrioritiesAgree()) ==> PrioritiesAgree()
      ensures Directory() == old(Directory()) && Closed(old(World()), old(Directory())) && zone in old(World())
      ensures World() == Turn(old(World()), old(Directory()), zone, triggered).0
      ensures log == old(log) + Turn(old(World()), old(Directory()), zone, triggered).1
    {
      SnapshotClosed();
      if triggered {
        ActivateTurn(zone);
      } else {
        DeactivateTurn(zone);
      }
    }

    /** The triggered branch of `test_zones`: `activate_zone`, read on the snapshot. */
    method ActivateTurn(zone: InputZone)
      requires Valid() && zone in zones
      modifies ZoneRepr`pressed, this`log
      ensures Valid()
      ensures zone.group.None? ==> zone.pressed
      ensures forall m :: m in ZoneRepr && m != zone && m.pressed ==> old(m.pressed)
      ensures forall m :: m in ZoneRepr && m != zone && m.group.None? ==> m.pressed == old(m.pressed)
      ensures old(PrioritiesAgree()) ==> PrioritiesAgree()
      ensures Directory() == old(Directory())
      ensures Closed(old(World()), old(Directory())) && zone in old(World())
      ensures World() == Turn(old(World()), old(Directory()), zone, true).0
      ensures log == old(log) + Turn(old(World()), old(Directory()), zone, true).1
    {
      ghost var w := World();
      ghost var dir := Directory();
      SnapshotClosed();
      ActivateOnSnapshot(zone, w, dir);
      ActivatedWorld(zone, w, dir, old(log));
    }

    /** `activate_zone`, with its outcome restated on the snapshot `w`, `dir` taken before it. */
    method ActivateOnSnapshot(zone: InputZone, ghost w: map<InputZone, ZoneRecord>, ghost dir: map<int, seq<InputZone>>)
      requires Valid() && zone in zones && w == World() && dir == Directory()
      modifies ZoneRepr`pressed, this`log
      ensures Valid()
      ensures old(PrioritiesAgree()) ==> PrioritiesAgree()
      ensures Activated(zone, w, dir, old(log))
    {
      SnapshotClosed();
      WorldAgrees(zone);
      ActivateZone(zone);
      assert forall m :: m in ZoneRepr ==> m.Record() == w[m].(pressed := m.pressed);
    }

    /**
     * What `activate_zone` leaves behind, on the snapshot `w`, `dir` taken
     * before it and the log `log0` it started from.
     */
    ghost predicate Activated(zone: InputZone, w: map<InputZone, ZoneRecord>, dir: map<int, seq<InputZone>>,
                              log0: seq<Actuation>)
      reads this`ZoneRepr, ZoneRepr, this`log
    {
      && Closed(w, dir) && w.Keys == ZoneRepr && zone in ZoneRepr
      && (forall m :: m in ZoneRepr ==> m.Record() == w[m].(pressed := m.pressed))
      && var z := w[zone];
         var ms := DirMembers(dir, z.group);
         var go := !z.pressed && forall m :: m in ms && m != zone ==> !Blocks(w[m], z);
         && (!go ==> log == log0 && forall m :: m in ZoneRepr ==> m.pressed == w[m].pressed)
         && (go ==> zone.pressed && log == log0 + PressOf(z.key) + CascadeLog(RecordsOf(w, ms), z))
         && (go ==> forall m :: m in ZoneRepr && m != zone ==>
               m.pressed == (w[m].pressed && !(m in ms && Lowered(w[m], z))))
    }

    /** The state an activation leaves is the one `Turn` computes. */
    lemma ActivatedWorld(zone: InputZone, w: map<InputZone, ZoneRecord>, dir: map<int, seq<InputZone>>,
                         log0: seq<Actuation>)
      requires Activated(zone, w, dir, log0)
      ensures World() == Turn(w, dir, zone, true).0
      ensures log == log0 + Turn(w, dir, zone, true).1
    {
      var z := w[zone];
      var ms := DirMembers(dir, z.group);
      if !z.pressed && forall m :: m in ms && m != zone ==> !Blocks(w[m], z) {
        var after := map m | m in w :: if m == zone then z.(pressed := true)
                                       else w[m].(pressed := w[m].pressed && !(m in ms && Lowered(w[m], z)));
        assert Turn(w, dir, zone, true).0 == after;
        forall m | m in ZoneRepr
          ensures World()[m] == after[m]
        {
          assert World()[m] == w[m].(pressed := m.pressed);
        }
      } else {
        assert Turn(w, dir, zone, true).0 == w;
        forall m | m in ZoneRepr
          ensures World()[m] == w[m]
        {
          assert World()[m] == w[m].(pressed := m.pressed);
        }
      }
    }

    /** The untriggered branch of `test_zones`: `deactivate_zone`, read on the snapshot. */
    method DeactivateTurn(zone: InputZone)
      requires Valid() && zone in zones
      modifies ZoneRepr`pressed, this`log
      ensures Valid()
      ensures !zone.pressed
      ensures forall m :: m in ZoneRepr && m != zone ==> m.pressed == old(m.pressed)
      ensures old(PrioritiesAgree()) ==> PrioritiesAgree()
      ensures Directory() == old(Directory())
      ensures Closed(old(World()), old(Directory())) && zone in old(World())
      ensures World() == Turn(old(World()), old(Directory()), zone, false).0
      ensures log == old(log) + Turn(old(World()), old(Directory()), zone, false).1
    {
      ghost var w := World();
      ghost var dir := Directory();
      SnapshotClosed();
      DeactivateOnSnapshot(zone, w);
      DeactivatedWorld(zone, w, dir, old(log));
    }

    /** `deactivate_zone`, with its outcome restated on the snapshot `w` taken before it. */
    method DeactivateOnSnapshot(zone: InputZone, ghost w: map<InputZone, ZoneRecord>)
      requires Valid() && zone in zones && w == World()
      modifies ZoneRepr`pressed, this`log
      ensures Valid()
      ensures !zone.pressed
      ensures forall m :: m in ZoneRepr && m != zone ==> m.pressed == old(m.pressed)
      ensures old(PrioritiesAgree()) ==> PrioritiesAgree()
      ensures Deactivated(zone, w, old(log))
    {
      DeactivateZone(zone);
      assert forall m :: m in ZoneRepr ==> m.Record() == w[m].(pressed := m.pressed);
    }

    /** What `deactivate_zone` leaves behind, on the snapshot `w` taken before it and the log `log0` it started from. */
    ghost predicate Deactivated(zone: InputZone, w: map<InputZone, ZoneRecord>, log0: seq<Actuation>)
      reads this`ZoneRepr, ZoneRepr, this`log
    {
      && w.Keys == ZoneRepr && zone in ZoneRepr
      && (forall m :: m in ZoneRepr ==> m.Record() == w[m].(pressed := m.pressed))
      && !zone.pressed && (forall m :: m in ZoneRepr && m != zone ==> m.pressed == w[m].pressed)
      && log == log0 + (if w[zone].pressed then ReleaseOf(w[zone].key) else [])
    }

    /** The state a deactivation leaves is the one `Turn` computes. */
    lemma DeactivatedWorld(zone: InputZone, w: map<InputZone, ZoneRecord>, dir: map<int, seq<InputZone>>,
                           log0: seq<Actuation>)
      requires Deactivated(zone, w, log0) && Closed(w, dir)
      ensures World() == Turn(w, dir, zone, false).0
      ensures log == log0 + Turn(w, dir, zone, false).1
    {
      forall m | m in ZoneRepr
        ensures World()[m] == Turn(w, dir, zone, false).0[m]
      {
        assert World()[m] == w[m].(pressed := m.pressed);
      }
    }

    /** In the current heap, a zone's group, its blockers and its cascade read the same on the snapshot. */
    lemma WorldAgrees(zone: InputZone)
      requires Valid() && zone in zones
      ensures zone in World() && World()[zone] == zone.Record()
      ensures Members(zone) == DirMembers(Directory(), World()[zone].group)
      ensures forall m :: m in Members(zone) ==> m in World() && World()[m] == m.Record()
      ensures Records(Members(zone)) == RecordsOf(World(), Members(zone))
      ensures zone.group.Some? ==> Find(groups, zone.group.value).Some?
      ensures CanActivate(zone) <==> forall m :: m in Members(zone) && m != zone ==> !Blocks(World()[m], World()[zone])
    {
      assert Linked(zone);
      if zone.group.Some? {
        DirOfFind(groups, zone.group.value);
      }
    }

    /**
     * One frame of the main loop after the key handling: zones are tested
     * only while a background is captured, and then with all of what
     * `test_zones` promises.
     */
    method Detect(sums: seq<int>)
      requires Valid() && |sums| == |zones|
      modifies ZoneRepr`pressed, this`log
      ensures Valid()
      ensures !armed ==> log == old(log) && forall m :: m in ZoneRepr ==> m.pressed == old(m.pressed)
      ensures armed ==> forall i :: 0 <= i < |zones| && !Triggered(sums[i], zones[i].inverted) ==> !zones[i].pressed
      ensures armed ==> forall i :: 0 <= i < |zones| && zones[i].group.None? ==>
        zones[i].pressed == Triggered(sums[i], zones[i].inverted)
      ensures armed ==> (Directory() == old(Directory()) && old(Covered())
        && World() == Run(old(World()), Directory(), zones, sums).0
        && log == old(log) + Run(old(World()), Directory(), zones, sums).1)
      ensures old(PrioritiesAgree()) ==> PrioritiesAgree()
    {
      if armed {
        TestZones(sums);
      }
    }

    /** `create_zone`: a 50 by 50 zone with no key, not inverted and ungrouped is appended at the pointer. */
    method CreateZone(x: int, y: int)
      requires Valid()
      modifies this`zones, this`ZoneRepr, this`groups, this`GroupRepr, GroupRepr`zones
      ensures Valid()
      ensures View() == old(View()) + [NewZone(x, y)]
      ensures groups == old(groups) && forall g :: g in groups ==> g.zones == old(g.zones)
      ensures AppendedFresh()
    {
      var newZone := new InputZone(x, y, x + NewZoneSize, y + NewZoneSize, None, false, None, 0);
      ghost var before := zones;
      AddZone(newZone);
      assert zones == before + [newZone];
      assert forall k :: 0 <= k < |before| ==> before[k].Record() == old(before[k].Record());
    }

    /** `invert_zone`: every zone under the pointer flips its inversion flag. */
    method InvertZone(x: int, y: int)
      requires Valid()
      modifies ZoneRepr`inverted
      ensures Valid()
      ensures View() == InvertHits(old(View()), x, y)
      ensures unchanged(old(Stale()))
    {
      ghost var before := View();
      ghost var after := InvertHits(before, x, y);
      for i := 0 to |zones|
        invariant forall k :: 0 <= k < |zones| ==> zones[k].Record() == if k < i then after[k] else before[k]
        invariant unchanged(Stale())
      {
        var z := zones[i];
        if z.x1 < x < z.x2 && z.y1 < y < z.y2 {
          z.inverted := !z.inverted;
        }
      }
    }

    /** The i-th zone is the first one of the list whose bounds strictly contain (x, y). */
    ghost predicate FirstUnder(i: int, x: int, y: int)
      reads this`zones, zones
    {
      0 <= i < |zones| && zones[i].Bounds().Contains(x, y) &&
      forall j :: 0 <= j < i ==> !zones[j].Bounds().Contains(x, y)
    }

    /**
     * The selection is the first zone under the pointer, with the pointer and
     * its offset from the zone's origin remembered (when there is such a zone).
     */
    ghost predicate SelectedFirst(x: int, y: int)
      reads this, zones
    {
      forall i :: FirstUnder(i, x, y) ==>
        selected == zones[i] && initialPosition == (x, y) && selectionOffset == (x - zones[i].x1, y - zones[i].y1)
    }

    /** No zone of the list contains (x, y). */
    ghost predicate NoneUnder(x: int, y: int)
      reads this`zones, zones
    {
      forall j :: 0 <= j < |zones| ==> !zones[j].Bounds().Contains(x, y)
    }

    /** The pointer search of `select_zone` finds the same zone as the one of the attribute commands. */
    lemma FirstUnderIsFirstHit(x: int, y: int)
      ensures NoneUnder(x, y) <==> FirstHit(View(), x, y).None?
      ensures forall i :: FirstUnder(i, x, y) <==> FirstHit(View(), x, y) == Some(i)
    {
      var rs := View();
      assert forall j :: 0 <= j < |zones| ==> (Hit(rs[j], x, y) <==> zones[j].Bounds().Contains(x, y));
    }

    /**
     * The search loop of `set_key`, `set_group` and `set_priority`: walk the
     * zones in list order and stop at the first one whose bounds strictly
     * contain the pointer.
     */
    method FirstHitIndex(x: int, y: int) returns (h: Option<nat>)
      ensures h == FirstHit(View(), x, y)
      ensures h.Some? ==> FirstUnder(h.value, x, y)
      ensures h.None? ==> NoneUnder(x, y)
    {
      ghost var view := View();
      var i := 0;
      while i < |zones|
        invariant 0 <= i <= |zones|
        invariant forall k :: 0 <= k < i ==> !Hit(view[k], x, y)
      {
        var z := zones[i];
        if z.x1 < x < z.x2 && z.y1 < y < z.y2 {
          assert Hit(view[i], x, y);
          return Some(i);
        }
        i := i + 1;
      }
      return None;
    }

    /** `set_key`: the first zone under the pointer gets the key; nothing else changes. */
    method SetKeyAt(x: int, y: int, key: int)
      requires Valid()
      modifies ZoneRepr`key
      ensures Valid()
      ensures View() == EditFirstHit(old(View()), x, y, SetKeyTo(key))
      ensures unchanged(old(Stale()))
    {
      var h := FirstHitIndex(x, y);
      if h.Some? {
        KeyAt(h.value, key);
      }
    }

    /** The write of `set_key` to the i-th zone: only its key changes. */
    method KeyAt(i: nat, key: int)
      requires Valid() && i < |zones|
      modifies {zones[i]}`key
      ensures Valid()
      ensures View() == old(View())[i := Apply(old(View())[i], SetKeyTo(key))]
    {
      ghost var view := View();
      zones[i].key := Some(key);
      RecordsAfterWrite(zones, i, view);
      ValidFramed();
    }

    /** `set_priority`: the first zone under the pointer gets the priority; nothing else changes. */
    method SetPriorityAt(x: int, y: int, priority: int)
      requires Valid()
      modifies ZoneRepr`priority
      ensures Valid()
      ensures View() == EditFirstHit(old(View()), x, y, SetPriorityTo(priority))
      ensures unchanged(old(Stale()))
    {
      var h := FirstHitIndex(x, y);
      if h.Some? {
        PriorityAt(h.value, priority);
      }
    }

    /** The write of `set_priority` to the i-th zone: only its priority changes. */
    method PriorityAt(i: nat, p: int)
      requires Valid() && i < |zones|
      modifies {zones[i]}`priority
      ensures Valid()
      ensures View() == old(View())[i := Apply(old(View())[i], SetPriorityTo(p))]
    {
      ghost var view := View();
      zones[i].priority := p;
      RecordsAfterWrite(zones, i, view);
      ValidFramed();
    }

    /**
     * `set_group`: the first zone under the pointer leaves its group, takes
     * the new id and joins the group with that id (created when missing).
     */
    method SetGroupAt(x: int, y: int, group: int)
      requires Valid()
      modifies ZoneRepr`group, this`groups, this`GroupRepr, GroupRepr`zones
      ensures Valid()
      ensures View() == EditFirstHit(old(View()), x, y, SetGroupTo(group))
      ensures unchanged(old(Stale()))
      ensures FirstHit(old(View()), x, y).Some? ==> Regrouped(zones[FirstHit(old(View()), x, y).value], group)
      ensures FirstHit(old(View()), x, y).None? ==> GroupsKept()
    {
      var h := FirstHitIndex(x, y);
      if h.Some? {
        RegroupAt(h.value, group);
      }
    }

    /** `set_group` on the i-th zone: its record changes in the group id only. */
    method RegroupAt(i: nat, group: int)
      requires Valid() && i < |zones|
      modifies {zones[i]}`group, this`groups, this`GroupRepr, GroupRepr`zones
      ensures Valid()
      ensures View() == old(View())[i := old(View())[i].(group := Some(group))]
      ensures unchanged(old(Stale()))
      ensures Regrouped(zones[i], group)
    {
      ghost var view := View();
      Regroup(zones[i], group);
      assert forall k :: 0 <= k < |zones| && k != i ==> zones[k].Record() == view[k];
      RecordsAfterWrite(zones, i, view);
    }

    /**
     * `select_zone`: the first zone under the pointer becomes the selection,
     * remembering the pointer and the pointer's offset from the zone's origin.
     */
    method SelectZone(x: int, y: int)
      requires Valid()
      modifies this`selected, this`initialPosition, this`selectionOffset
      ensures Valid()
      ensures NoneUnder(x, y) ==>
        selected == old(selected) && initialPosition == old(initialPosition) && selectionOffset == old(selectionOffset)
      ensures SelectedFirst(x, y)
    {
      var i := 0;
      while i < |zones|
        invariant 0 <= i <= |zones|
        invariant forall j :: 0 <= j < i ==> !zones[j].Bounds().Contains(x, y)
        invariant selected == old(selected) && initialPosition == old(initialPosition) && selectionOffset == old(selectionOffset)
      {
        var z := zones[i];
        if z.x1 < x < z.x2 && z.y1 < y < z.y2 {
          selected := z;
          initialPosition := (x, y);
          selectionOffset := (x - z.x1, y - z.y1);
          assert FirstUnder(i, x, y);
          return;
        }
        i := i + 1;
      }
    }

    /** The selected zone, as a set of at most one zone. */
    function Selection(): set<InputZone>
      reads this`selected
    {
      if selected == null then {} else {selected}
    }

    /** The selected zone still sits where it sat when it was selected, relative to the pointer. */
    ghost predicate Anchored()
      reads this`selected, this`initialPosition, this`selectionOffset, selected
    {
      selected != null &&
      selected.x1 + selectionOffset.0 == initialPosition.0 &&
      selected.y1 + selectionOffset.1 == initialPosition.1
    }

    /**
     * `move_zone`: the selected zone is moved so that the pointer keeps its
     * offset from the zone's origin; width and height are kept. Without a
     * selection nothing changes.
     */
    method MoveZone(x: int, y: int)
      requires Valid()
      modifies Selection()`x1, Selection()`y1, Selection()`x2, Selection()`y2
      ensures Valid()
      ensures selected != null ==>
        selected.Bounds() == MovedTo(old(selected.Bounds()), x - selectionOffset.0, y - selectionOffset.1)
      ensures selected != null ==>
        selected.x1 + selectionOffset.0 == x && selected.y1 + selectionOffset.1 == y
      ensures old(Anchored()) ==>
        selected.x1 == old(selected.x1) + (x - initialPosition.0) &&
        selected.y1 == old(selected.y1) + (y - initialPosition.1)
      ensures forall z :: z in ZoneRepr && z != selected ==> z.Bounds() == old(z.Bounds())
    {
      if selected == null {
        return;
      }
      selected.SetPosition(x - selectionOffset.0, y - selectionOffset.1);
    }

    /**
     * `resize_zone`: the selected zone keeps its origin and takes the size
     * that puts its far corner where the pointer has travelled since the
     * selection; right after a selection that is the pointer itself. There is
     * no lower bound on the size. Without a selection nothing changes.
     */
    method ResizeZone(x: int, y: int)
      requires Valid()
      modifies Selection()`x2, Selection()`y2
      ensures Valid()
      ensures selected != null ==>
        selected.Bounds() == Resized(old(selected.Bounds()),
          x - initialPosition.0 + selectionOffset.0, y - initialPosition.1 + selectionOffset.1)
      ensures old(Anchored()) ==> selected.x2 == x && selected.y2 == y
      ensures forall z :: z in ZoneRepr && z != selected ==> z.Bounds() == old(z.Bounds())
    {
      if selected == null {
        return;
      }
      var w := x - initialPosition.0 + selectionOffset.0;
      var h := y - initialPosition.1 + selectionOffset.1;
      selected.SetSize(w, h);
    }

    /**
     * `mouse_event`: a pointer move records the pointer and, in the move or
     * resize mode, drags the selection; pressing the left button selects the
     * first zone under the pointer; releasing it drops the selection. Other
     * events change nothing.
     */
    method MouseEvent(event: MouseEventKind, x: int, y: int)
      requires Valid()
      modifies this`mousePos, this`selected, this`initialPosition, this`selectionOffset
      modifies Selection()`x1, Selection()`y1, Selection()`x2, Selection()`y2
      ensures Valid()
      ensures mousePos == if event == MouseMove then (x, y) else old(mousePos)
      ensures event != LButtonDown ==> initialPosition == old(initialPosition) && selectionOffset == old(selectionOffset)
      ensures event == LButtonUp ==> selected == null
      ensures event == LButtonDown && NoneUnder(x, y) ==> selected == old(selected)
      ensures event == LButtonDown ==> SelectedFirst(x, y)
      ensures event == MouseMove || event == OtherMouseEvent ==> selected == old(selected)
      ensures event == MouseMove && mode == Move && selected != null ==>
        selected.Bounds() == MovedTo(old(selected.Bounds()), x - selectionOffset.0, y - selectionOffset.1)
      ensures event == MouseMove && mode == Resize && selected != null ==>
        selected.Bounds() == Resized(old(selected.Bounds()),
          x - initialPosition.0 + selectionOffset.0, y - initialPosition.1 + selectionOffset.1)
      ensures !(event == MouseMove && (mode == Move || mode == Resize)) ==>
        forall z :: z in ZoneRepr ==> z.Bounds() == old(z.Bounds())
    {
      match event {
        case MouseMove =>
          PointerMoved(x, y);
        case LButtonDown =>
          SelectZone(x, y);
        case LButtonUp =>
          selected := null;
        case OtherMouseEvent =>
      }
    }

    /** The pointer-move branch of `mouse_event`. */
    method PointerMoved(x: int, y: int)
      requires Valid()
      modifies this`mousePos, Selection()`x1, Selection()`y1, Selection()`x2, Selection()`y2
      ensures Valid()
      ensures mousePos == (x, y)
      ensures mode == Move && selected != null ==>
        selected.Bounds() == MovedTo(old(selected.Bounds()), x - selectionOffset.0, y - selectionOffset.1)
      ensures mode == Resize && selected != null ==>
        selected.Bounds() == Resized(old(selected.Bounds()),
          x - initialPosition.0 + selectionOffset.0, y - initialPosition.1 + selectionOffset.1)
      ensures mode != Move && mode != Resize ==> forall z :: z in ZoneRepr ==> z.Bounds() == old(z.Bounds())
    {
      mousePos := (x, y);
      if mode == Move {
        MoveZone(x, y);
      } else if mode == Resize {
        ResizeZone(x, y);
      }
    }

    /**
     * The zones and member lists after a load: a load that raised leaves both
     * lists and the records as they were; a cancelled dialog leaves an empty
     * zone list and the member lists as they were; a loaded file gives fresh
     * zones with the saved records, every old group gaining at its end the
     * loaded zones with its id, in record order, and every new group holding
     * exactly those.
     */
    twostate predicate LoadedAs(outcome: LoadOutcome)
      reads this`zones, this`groups, zones, groups
    {
      match outcome
      case LoadFailed => zones == old(zones) && View() == old(View()) && GroupsKept()
      case LoadCancelled => zones == [] && GroupsKept()
      case Loaded(records) =>
        && View() == Config.Decoded(records)
        && (forall z :: z in zones ==> fresh(z))
        && old(groups) <= groups
        && (forall g :: g in old(groups) ==> g.zones == old(g.zones) + WithGroup(zones, g.id))
        && (forall k :: |old(groups)| <= k < |groups| ==> groups[k].zones == WithGroup(zones, groups[k].id))
    }

    /**
     * `load_config`, given what the save manager produced: a load that raised
     * changes nothing; a cancelled dialog empties the zone list (the list is
     * cleared before the missing data is dereferenced); a loaded file replaces
     * the zone list with fresh zones built from the records, each added as
     * `add_zone` does. The group list is not reset: earlier groups and their
     * members survive.
     */
    method LoadConfig(outcome: LoadOutcome)
      requires Valid()
      modifies this`zones, this`ZoneRepr, this`groups, this`GroupRepr, GroupRepr`zones
      ensures Valid()
      ensures outcome.LoadFailed? ==> zones == old(zones) && groups == old(groups)
      ensures outcome.LoadCancelled? ==> zones == [] && groups == old(groups)
      ensures outcome.Loaded? ==> View() == Config.Decoded(outcome.records)
      ensures outcome.Loaded? ==> forall z :: z in zones ==> fresh(z)
      ensures old(groups) <= groups
      ensures !outcome.Loaded? ==> forall g :: g in groups ==> g.zones == old(g.zones)
      ensures outcome.Loaded? ==> forall g :: g in old(groups) ==> g.zones == old(g.zones) + WithGroup(zones, g.id)
      ensures outcome.Loaded? ==>
        forall k :: |old(groups)| <= k < |groups| ==> groups[k].zones == WithGroup(zones, groups[k].id)
      ensures LoadedAs(outcome)
    {
      match outcome {
        case LoadFailed =>
        case LoadCancelled =>
          zones := [];
        case Loaded(records) =>
          LoadRecords(records);
      }
    }

    /** The successful branch of `load_config`: the zone list is rebuilt from the records. */
    method LoadRecords(records: seq<ZoneRecord>)
      requires Valid()
      modifies this`zones, this`ZoneRepr, this`groups, this`GroupRepr, GroupRepr`zones
      ensures Valid()
      ensures View() == Config.Decoded(records)
      ensures forall z :: z in zones ==> fresh(z)
      ensures old(groups) <= groups
      ensures forall g :: g in old(groups) ==> g.zones == old(g.zones) + WithGroup(zones, g.id)
      ensures forall k :: |old(groups)| <= k < |groups| ==> groups[k].zones == WithGroup(zones, groups[k].id)
    {
      var loaded := Config.DecodeZones(records);
      zones := [];
      AddZones(loaded);
    }

    /** The `add_zone` loop of `load_config`, over zones the session has never seen. */
    method AddZones(loaded: seq<InputZone>)
      requires Valid() && zones == []
      requires forall i, j :: 0 <= i < j < |loaded| ==> loaded[i] != loaded[j]
      requires forall z :: z in loaded ==> z !in ZoneRepr
      modifies this`zones, this`ZoneRepr, this`groups, this`GroupRepr, GroupRepr`zones
      ensures Valid()
      ensures zones == loaded
      ensures old(groups) <= groups
      ensures forall g :: g in old(groups) ==> g.zones == old(g.zones) + WithGroup(loaded, g.id)
      ensures forall k :: |old(groups)| <= k < |groups| ==> groups[k].zones == WithGroup(loaded, groups[k].id)
    {
      ghost var tags := seq(|loaded|, k requires 0 <= k < |loaded| reads loaded => loaded[k].group);
      ghost var base := map g | g in groups :: g.zones;
      AddTagged(loaded, tags, base);
      forall g | g in groups
        ensures WithGroup(loaded, g.id) == Tagged(loaded, tags, g.id)
      {
        WithGroupTagged(loaded, tags, g.id);
      }
    }

    /**
     * The same loop, with the group ids of the loaded zones taken once as
     * `tags` and the lists of the groups before the load as `base`.
     */
    method AddTagged(loaded: seq<InputZone>, ghost tags: seq<Option<int>>, ghost base: map<InputGroup, seq<InputZone>>)
      requires Valid() && zones == []
      requires forall i, j :: 0 <= i < j < |loaded| ==> loaded[i] != loaded[j]
      requires forall z :: z in loaded ==> z !in ZoneRepr
      requires |tags| == |loaded| && forall k :: 0 <= k < |loaded| ==> loaded[k].group == tags[k]
      requires forall g :: g in groups ==> g in base && g.zones == base[g]
      modifies this`zones, this`ZoneRepr, this`groups, this`GroupRepr, GroupRepr`zones
      ensures Valid()
      ensures zones == loaded
      ensures old(groups) <= groups
      ensures forall g :: g in old(groups) ==> g.zones == base[g] + Tagged(loaded, tags, g.id)
      ensures forall k :: |old(groups)| <= k < |groups| ==> groups[k].zones == Tagged(loaded, tags, groups[k].id)
    {
      for i := 0 to |loaded|
        invariant Valid()
        invariant zones == loaded[..i]
        invariant forall k :: i <= k < |loaded| ==> loaded[k] !in ZoneRepr
        invariant fresh(GroupRepr - old(GroupRepr)) && old(GroupRepr) <= GroupRepr
        invariant old(groups) <= groups
        invariant forall g :: g in old(groups) ==> g in base && g.zones == base[g] + Tagged(loaded[..i], tags[..i], g.id)
        invariant forall k :: |old(groups)| <= k < |groups| ==> groups[k].zones == Tagged(loaded[..i], tags[..i], groups[k].id)
      {
        AddLoaded(loaded, tags, i, old(groups), base);
      }
      assert loaded[..|loaded|] == loaded && tags[..|loaded|] == tags;
    }

    /**
     * One turn of the `add_zone` loop of `load_config`: the groups `g0` that
     * were there before the load hold their `base` list followed by the loaded
     * zones carrying their id; groups made during the load hold just those.
     */
    method AddLoaded(loaded: seq<InputZone>, ghost tags: seq<Option<int>>, i: nat,
                     ghost g0: seq<InputGroup>, ghost base: map<InputGroup, seq<InputZone>>)
      requires Valid() && i < |loaded| && zones == loaded[..i] && loaded[i] !in ZoneRepr
      requires |tags| == |loaded| && forall k :: 0 <= k <= i ==> loaded[k].group == tags[k]
      requires g0 <= groups
      requires forall g :: g in g0 ==> g in base && g.zones == base[g] + Tagged(loaded[..i], tags[..i], g.id)
      requires forall k :: |g0| <= k < |groups| ==> groups[k].zones == Tagged(loaded[..i], tags[..i], groups[k].id)
      modifies this`zones, this`ZoneRepr, this`groups, this`GroupRepr, GroupRepr`zones
      ensures Valid() && zones == loaded[..i + 1]
      ensures ZoneRepr == old(ZoneRepr) + {loaded[i]}
      ensures fresh(GroupRepr - old(GroupRepr)) && old(GroupRepr) <= GroupRepr
      ensures old(groups) <= groups
      ensures forall g :: g in g0 ==> g.zones == base[g] + Tagged(loaded[..i + 1], tags[..i + 1], g.id)
      ensures forall k :: |g0| <= k < |groups| ==> groups[k].zones == Tagged(loaded[..i + 1], tags[..i + 1], groups[k].id)
    {
      var zone := loaded[i];
      LoadedLinked(loaded, tags, i);
      ghost var before := groups;
      ghost var pre := map g | g in groups :: g.zones;
      AddZone(zone);
      TakeSnoc(loaded, i);
      TakeSnoc(tags, i);
      if |groups| > |before| {
        FreshTagUnused(loaded[..i], tags[..i], before, groups[|before|].id);
      }
      LoadedOldGroups(loaded[..i], tags[..i], zone, tags[i], g0, before, base, pre);
      LoadedNewGroups(loaded[..i], tags[..i], zone, tags[i], g0, before, pre);
    }

    /** The zones loaded so far are linked: each grouped one finds its group. */
    lemma LoadedLinked(loaded: seq<InputZone>, tags: seq<Option<int>>, i: nat)
      requires AllLinked({}) && (forall z :: z in zones ==> z in ZoneRepr) && i <= |loaded| && zones == loaded[..i]
      requires |tags| == |loaded| && forall k :: 0 <= k < i ==> loaded[k].group == tags[k]
      ensures forall k :: 0 <= k < i && tags[..i][k].Some? ==> Find(groups, tags[..i][k].value).Some?
    {
      forall k | 0 <= k < i && tags[..i][k].Some?
        ensures Find(groups, tags[..i][k].value).Some?
      {
        assert loaded[k] in zones && Linked(loaded[k]);
      }
    }

    /**
     * A group whose list was `p` before one more zone `z` tagged `t` was
     * added, `p` being its list `b` before the load followed by its tagged zones.
     */
    static lemma GroupGains(zs: seq<InputZone>, tags: seq<Option<int>>, z: InputZone, t: Option<int>, g: InputGroup,
                            b: seq<InputZone>, p: seq<InputZone>)
      requires |tags| == |zs| && p == b + Tagged(zs, tags, g.id)
      requires g.zones == p + (if Some(g.id) == t then [z] else [])
      ensures g.zones == b + Tagged(zs + [z], tags + [t], g.id)
    {
      TaggedSnoc(zs, tags, z, t, g.id);
    }

    /** The same for a group made during the load, whose list before the load was empty. */
    static lemma MadeGroupGains(zs: seq<InputZone>, tags: seq<Option<int>>, z: InputZone, t: Option<int>, g: InputGroup,
                                p: seq<InputZone>)
      requires |tags| == |zs| && p == Tagged(zs, tags, g.id)
      requires g.zones == p + (if Some(g.id) == t then [z] else [])
      ensures g.zones == Tagged(zs + [z], tags + [t], g.id)
    {
      TaggedSnoc(zs, tags, z, t, g.id);
    }

    /** A group made by the zone `z` tagged `t` itself: it holds just `z`. */
    static lemma NewGroupGains(zs: seq<InputZone>, tags: seq<Option<int>>, z: InputZone, t: Option<int>, g: InputGroup)
      requires |tags| == |zs| && Tagged(zs, tags, g.id) == []
      requires g.zones == [z] && t == Some(g.id)
      ensures g.zones == Tagged(zs + [z], tags + [t], g.id)
    {
      TaggedSnoc(zs, tags, z, t, g.id);
    }

    /** The lists of the groups `g0` that were there before the load, after one more loaded zone `z` tagged `t`. */
    lemma LoadedOldGroups(zs: seq<InputZone>, tags: seq<Option<int>>, z: InputZone, t: Option<int>, g0: seq<InputGroup>,
                          before: seq<InputGroup>, base: map<InputGroup, seq<InputZone>>, pre: map<InputGroup, seq<InputZone>>)
      requires |tags| == |zs| && g0 <= before && z.group == t
      requires forall g :: g in before ==> g in pre
      requires forall g :: g in g0 ==> g in base && pre[g] == base[g] + Tagged(zs, tags, g.id)
      requires forall g :: g in before ==> g.zones == pre[g] + (if Some(g.id) == z.group then [z] else [])
      ensures forall g :: g in g0 ==> g.zones == base[g] + Tagged(zs + [z], tags + [t], g.id)
    {
      forall g | g in g0
        ensures g.zones == base[g] + Tagged(zs + [z], tags + [t], g.id)
      {
        GroupGains(zs, tags, z, t, g, base[g], pre[g]);
      }
    }

    /** An id no group had yet tags none of the zones already linked to their groups. */
    static lemma FreshTagUnused(zs: seq<InputZone>, tags: seq<Option<int>>, before: seq<InputGroup>, id: int)
      requires |tags| == |zs| && Find(before, id).None?
      requires forall k :: 0 <= k < |zs| && tags[k].Some? ==> Find(before, tags[k].value).Some?
      ensures Tagged(zs, tags, id) == []
    {
      forall a | 0 <= a < |zs|
        ensures tags[a] != Some(id)
      {
      }
      TaggedNone(zs, tags, id);
    }

    /** The lists of the groups made during the load, after one more loaded zone `z` tagged `t`. */
    lemma LoadedNewGroups(zs: seq<InputZone>, tags: seq<Option<int>>, z: InputZone, t: Option<int>, g0: seq<InputGroup>,
                          before: seq<InputGroup>, pre: map<InputGroup, seq<InputZone>>)
      requires |tags| == |zs| && g0 <= before && before <= groups
      requires forall g :: g in before ==> g in pre
      requires forall k :: |g0| <= k < |before| ==> pre[before[k]] == Tagged(zs, tags, before[k].id)
      requires forall g :: g in before ==> g.zones == pre[g] + (if Some(g.id) == t then [z] else [])
      requires |groups| <= |before| + 1
      requires |groups| > |before| ==>
        groups[|before|].zones == [z] && t == Some(groups[|before|].id) && Tagged(zs, tags, groups[|before|].id) == []
      ensures forall k :: |g0| <= k < |groups| ==> groups[k].zones == Tagged(zs + [z], tags + [t], groups[k].id)
    {
      forall k | |g0| <= k < |groups|
        ensures groups[k].zones == Tagged(zs + [z], tags + [t], groups[k].id)
      {
        if k < |before| {
          assert groups[k] == before[k] && before[k] in before;
          MadeGroupGains(zs, tags, z, t, before[k], pre[before[k]]);
        } else {
          assert k == |before|;
          NewGroupGains(zs, tags, z, t, groups[|before|]);
        }
      }
    }

    /**
     * An attribute command at (x, y): the records become `EditFirstHit`; a
     * group edit that hits a zone moves it to its new group (`Regrouped`),
     * and every other edit leaves the member lists alone.
     */
    twostate predicate Edited(e: Edit, x: int, y: int)
      reads this`zones, this`groups, zones, groups
    {
      && zones == old(zones)
      && View() == EditFirstHit(old(View()), x, y, e)
      && if e.SetGroupTo? && FirstHit(old(View()), x, y).Some? then
           Regrouped(old(zones)[FirstHit(old(View()), x, y).value], e.group)
         else
           GroupsKept()
    }

    /**
     * `destroy_zone` at (x, y): the list becomes `Sweep` of the old one, the
     * surviving zones keep their attributes, and every member list loses
     * exactly the removed zones.
     */
    twostate predicate Destroyed(x: int, y: int)
      reads this`zones, this`groups, zones, groups
    {
      && zones == Sweep(old(zones), HitMask(old(View()), x, y))
      && (forall z :: z in old(zones) && z in zones ==> z.Record() == old(z.Record()))
      && groups == old(groups)
      && forall g :: g in groups ==> g.zones == Without(old(g.zones), set z | z in old(zones) && z !in zones)
    }

    /**
     * What command `c` of `key_pressed` does to the zones and the member
     * lists, the pointer being at (x, y) and `outcome` being what the save
     * manager returns should the command load. The commands that do not
     * act on zones leave the records and the member lists alone.
     */
    twostate predicate Effect(c: Command, x: int, y: int, outcome: LoadOutcome)
      reads this`zones, this`groups, zones, groups
    {
      match c
      case EditAt(e) => Edited(e, x, y)
      case Create => AppendedFresh() && View() == old(View()) + [NewZone(x, y)] && GroupsKept()
      case Destroy => Destroyed(x, y)
      case Invert => zones == old(zones) && View() == InvertHits(old(View()), x, y) && GroupsKept()
      case Load => LoadedAs(outcome)
      case _ => zones == old(zones) && View() == old(View()) && GroupsKept()
    }

    /**
     * `key_pressed`: no key does nothing; a one-shot mode falls back to
     * `Default` and applies its edit to the first zone under the pointer (a
     * group or priority key that is not a digit edits nothing); otherwise the
     * key switches the mode or runs a command at the pointer. `outcome` is
     * what the save manager returns should the key ask for a load; `saved` is
     * the dictionary handed to the save manager when the key asks for a save.
     */
    method KeyPressed(key: int, outcome: LoadOutcome) returns (saved: Option<map<string, seq<ZoneRecord>>>)
      requires Valid()
      modifies this`mode, this`armed, this`zones, this`ZoneRepr, this`groups, this`GroupRepr, GroupRepr`zones
      modifies ZoneRepr`key, ZoneRepr`group, ZoneRepr`priority, ZoneRepr`inverted
      ensures Valid()
      ensures mode == NextMode(old(mode), key)
      ensures armed == ((Decode(old(mode), key) == ToggleArmed) != old(armed))
      ensures saved.Some? <==> Decode(old(mode), key) == Save
      ensures saved.Some? ==> saved.value == map[Config.ZonesKey := old(View())]
      ensures key == NoKey ==> unchanged(this) && unchanged(ZoneRepr) && unchanged(GroupRepr)
      ensures Decode(old(mode), key).EditAt? ==>
        View() == EditFirstHit(old(View()), mousePos.0, mousePos.1, Decode(old(mode), key).edit)
      ensures Decode(old(mode), key) == Create ==> View() == old(View()) + [NewZone(mousePos.0, mousePos.1)]
      ensures Decode(old(mode), key) == Destroy ==> zones == Sweep(old(zones), HitMask(old(View()), mousePos.0, mousePos.1))
      ensures Decode(old(mode), key) == Invert ==> View() == InvertHits(old(View()), mousePos.0, mousePos.1)
      ensures Decode(old(mode), key) == Load && outcome.Loaded? ==> View() == Config.Decoded(outcome.records)
      ensures Decode(old(mode), key) == Load && outcome.LoadFailed? ==> zones == old(zones)
      ensures Decode(old(mode), key) == Load && outcome.LoadCancelled? ==> zones == []
      ensures Inert(Decode(old(mode), key)) ==>
        View() == old(View()) && groups == old(groups) && forall g :: g in old(groups) ==> g.zones == old(g.zones)
      ensures Effect(Decode(old(mode), key), mousePos.0, mousePos.1, outcome)
      ensures unchanged(old(Stale()))
      ensures unchanged(old(ZoneRepr) - Listed())
    {
      saved := None;
      if key == NoKey {
        return;
      }
      if OneShot(mode) {
        OneShotKey(key);
      } else {
        saved := CommandKey(key, outcome);
      }
    }

    /** The one-shot branch of `key_pressed`: back to `Default`, then edit the zone under the pointer. */
    method OneShotKey(key: int)
      requires Valid() && OneShot(mode) && key != NoKey
      modifies this`mode, this`groups, this`GroupRepr, GroupRepr`zones
      modifies ZoneRepr`key, ZoneRepr`group, ZoneRepr`priority
      ensures Valid()
      ensures mode == Default
      ensures Decode(old(mode), key).EditAt? ==> Edited(Decode(old(mode), key).edit, mousePos.0, mousePos.1)
      ensures Decode(old(mode), key) == Rejected ==> View() == old(View()) && GroupsKept()
      ensures unchanged(old(Stale()))
    {
      // main.py resets the mode before editing; the edit never reads the mode, so the order is immaterial.
      OneShotEdit(mode, key);
      label edited:
      mode := Default;
      assert View() == old@edited(View());
      assert GroupsKept@edited();
    }

    /** The edit a one-shot mode applies at the pointer; a non-digit group or priority edits nothing. */
    method OneShotEdit(m: InputMode, key: int)
      requires Valid() && OneShot(m) && key != NoKey
      modifies this`groups, this`GroupRepr, GroupRepr`zones
      modifies ZoneRepr`key, ZoneRepr`group, ZoneRepr`priority
      ensures Valid()
      ensures Decode(m, key).EditAt? ==> Edited(Decode(m, key).edit, mousePos.0, mousePos.1)
      ensures Decode(m, key) == Rejected ==> View() == old(View()) && GroupsKept()
      ensures unchanged(old(Stale()))
    {
      if m == SetKey {
        EditAtPointer(SetKeyTo(key));
      } else {
        var d := ParseDigit(key);
        if d.Some? {
          EditAtPointer(if m == Group then SetGroupTo(d.value) else SetPriorityTo(d.value));
        }
      }
    }

    /** `set_key`, `set_group` or `set_priority` at the pointer. */
    method EditAtPointer(e: Edit)
      requires Valid()
      modifies this`groups, this`GroupRepr, GroupRepr`zones, ZoneRepr`key, ZoneRepr`group, ZoneRepr`priority
      ensures Valid()
      ensures Edited(e, mousePos.0, mousePos.1)
      ensures unchanged(old(Stale()))
    {
      match e {
        case SetKeyTo(k) => SetKeyAt(mousePos.0, mousePos.1, k);
        case SetGroupTo(g) => SetGroupAt(mousePos.0, mousePos.1, g);
        case SetPriorityTo(p) => SetPriorityAt(mousePos.0, mousePos.1, p);
      }
    }

    /**
     * The command keys of `key_pressed`, read outside the one-shot modes. The
     * keys are tested one by one in main.py; here the mode keys and the
     * editing keys are handed to two helpers, which changes nothing since
     * each test compares the key with a different constant.
     */
    method CommandKey(key: int, outcome: LoadOutcome) returns (saved: Option<map<string, seq<ZoneRecord>>>)
      requires Valid() && !OneShot(mode) && key != NoKey
      modifies this`mode, this`armed, this`zones, this`ZoneRepr, this`groups, this`GroupRepr, GroupRepr`zones
      modifies ZoneRepr`inverted
      ensures Valid()
      ensures mode == NextMode(old(mode), key)
      ensures armed == ((Decode(old(mode), key) == ToggleArmed) != old(armed))
      ensures saved.Some? <==> Decode(old(mode), key) == Save
      ensures saved.Some? ==> saved.value == map[Config.ZonesKey := old(View())]
      ensures Effect(Decode(old(mode), key), mousePos.0, mousePos.1, outcome)
      ensures unchanged(old(Stale()))
      ensures unchanged(old(ZoneRepr) - Listed())
    {
      EditingKeyCommands(mode, key);
      saved := None;
      if key in EditingKeys {
        saved := EditingKey(key, outcome);
      } else {
        ModeKey(key);
      }
    }

    /** The mode keys, Enter and unbound keys: only the mode and the armed flag change. */
    method ModeKey(key: int)
      requires !OneShot(mode) && key != NoKey && key !in EditingKeys
      modifies this`mode, this`armed
      ensures mode == NextMode(old(mode), key)
      ensures armed == ((Decode(old(mode), key) == ToggleArmed) != old(armed))
      ensures Inert(Decode(old(mode), key))
    {
      if key == '1' as int {
        mode := Default;
      } else if key == '4' as int {
        mode := Move;
      } else if key == '5' as int {
        mode := Resize;
      } else if key == '6' as int {
        mode := SetKey;
      } else if key == '8' as int {
        mode := Group;
      } else if key == '9' as int {
        mode := Priority;
      } else if key == EnterKey {
        armed := !armed;
        mode := Default;
      }
    }

    /** The keys that act on zones: create, destroy, invert, load and save. */
    method EditingKey(key: int, outcome: LoadOutcome) returns (saved: Option<map<string, seq<ZoneRecord>>>)
      requires Valid() && key in EditingKeys
      modifies this`zones, this`ZoneRepr, this`groups, this`GroupRepr, GroupRepr`zones, ZoneRepr`inverted
      ensures Valid()
      ensures saved.Some? <==> key == '=' as int
      ensures saved.Some? ==> saved.value == map[Config.ZonesKey := old(View())]
      ensures key == '2' as int ==> Effect(Create, mousePos.0, mousePos.1, outcome)
      ensures key == '3' as int ==> Effect(Destroy, mousePos.0, mousePos.1, outcome)
      ensures key == '7' as int ==> Effect(Invert, mousePos.0, mousePos.1, outcome)
      ensures key == '-' as int ==> Effect(Load, mousePos.0, mousePos.1, outcome)
      ensures key == '=' as int ==> Effect(Save, mousePos.0, mousePos.1, outcome)
      ensures unchanged(old(Stale()))
      ensures unchanged(old(ZoneRepr) - Listed())
    {
      saved := None;
      if key == '-' as int {
        LoadConfig(outcome);
      } else if key == '=' as int {
        var d := SaveDict();
        saved := Some(d);
      } else {
        ZoneKey(key);
      }
    }

    /** The editing keys that act on the zones at the pointer: create, destroy, invert. */
    method ZoneKey(key: int)
      requires Valid() && key in {'2' as int, '3' as int, '7' as int}
      modifies this`zones, this`ZoneRepr, this`groups, this`GroupRepr, GroupRepr`zones, ZoneRepr`inverted
      ensures Valid()
      ensures key == '2' as int ==> AppendedFresh() && View() == old(View()) + [NewZone(mousePos.0, mousePos.1)] && GroupsKept()
      ensures key == '3' as int ==> Destroyed(mousePos.0, mousePos.1)
      ensures key == '7' as int ==> zones == old(zones) && View() == InvertHits(old(View()), mousePos.0, mousePos.1) && GroupsKept()
      ensures unchanged(old(Stale()))
      ensures unchanged(old(ZoneRepr) - Listed())
    {
      if key == '2' as int {
        CreateZone(mousePos.0, mousePos.1);
      } else if key == '3' as int {
        DestroyZone(mousePos.0, mousePos.1);
      } else {
        InvertZone(mousePos.0, mousePos.1);
      }
    }

    /** The dictionary `save` receives: `SaveData(zones).to_dict()`, the zone records under "zones". */
    method SaveDict() returns (d: map<string, seq<ZoneRecord>>)
      ensures d == map[Config.ZonesKey := View()]
    {
      var data := new Config.SaveData(zones);
      d := data.ToDict();
      assert d[Config.ZonesKey] == View();
    }

    /**
     * `destroy_zone`: the loop walks the live list while removing from it, so
     * the zone that slides into a removed zone's slot is never tested. The
     * result is `Sweep` of the old list: the first zone under the pointer is
     * always removed, no zone outside the pointer is, and the zone right
     * after a removed one survives. Removed zones leave their groups.
     */
    method DestroyZone(x: int, y: int)
      requires Valid()
      modifies this`zones, GroupRepr`zones
      ensures Valid()
      ensures zones == Sweep(old(zones), HitMask(old(View()), x, y))
      ensures forall g, m :: g in groups && m in g.zones && m in old(zones) ==> m in zones
      ensures forall z :: z in old(zones) && !z.Bounds().Contains(x, y) ==> z in zones
      ensures FirstHit(old(View()), x, y).None? ==> zones == old(zones)
      ensures FirstHit(old(View()), x, y).Some? ==> old(zones)[FirstHit(old(View()), x, y).value] !in zones
      ensures forall g :: g in groups ==> g.zones == Without(old(g.zones), set z | z in old(zones) && z !in zones)
    {
      ghost var rs := View();
      ghost var s := zones;
      DestroyLoop(x, y);
      DestroyOutcome(s, HitMask(rs, x, y), rs, x, y);
    }

    /** The `destroy_zone` loop itself, stated through `Sweep`. */
    method DestroyLoop(x: int, y: int)
      requires Valid()
      modifies this`zones, GroupRepr`zones
      ensures Valid()
      ensures zones == Sweep(old(zones), HitMask(old(View()), x, y))
      ensures forall g, m :: g in groups && m in g.zones && m in old(zones) ==> m in zones
      ensures forall g :: g in groups ==> g.zones == Without(old(g.zones), set z | z in old(zones) && z !in zones)
    {
      ghost var s := zones;
      ghost var hits := HitMask(View(), x, y);
      ghost var lists := map g | g in groups :: g.zones;
      SweepAtIsSweep(s, hits, 0);
      assert s[0..] == s && hits[0..] == hits;
      forall g | g in groups
        ensures g.zones == Without(lists[g], {})
      {
        WithoutNothing(g.zones, {});
      }
      forall k | 0 <= k < |s|
        ensures hits[k] == s[k].Bounds().Contains(x, y)
      {
        assert View()[k] == s[k].Record();
      }
      ghost var gone := DestroySweep(x, y, hits, lists);
      GoneIsRemoved(s, zones, gone);
    }

    /**
     * The `destroy_zone` loop itself, from the mask of hits and the group
     * lists taken before it: it leaves the swept list and the removed zones.
     */
    method DestroySweep(x: int, y: int, ghost hits: seq<bool>, ghost lists: map<InputGroup, seq<InputZone>>)
        returns (ghost gone: set<InputZone>)
      requires Valid() && HitsAgree(zones, hits, x, y) && Swept(zones, {}, lists)
      requires SweepState(zones, hits, zones, 0, [], 0)
      modifies this`zones, GroupRepr`zones
      ensures Valid()
      ensures zones == SweepAt(old(zones), hits, 0)
      ensures forall g, m :: g in groups && m in g.zones && m in old(zones) ==> m in zones
      ensures Swept(old(zones), gone, lists)
    {
      ghost var s := zones;
      ghost var kept: seq<InputZone> := [];
      ghost var j := 0;
      gone := {};
      var i := 0;
      while i < |zones|
        invariant Valid() && GroupRepr == old(GroupRepr)
        invariant SweepState(s, hits, zones, i, kept, j)
        invariant forall g, m :: g in groups && m in g.zones && m in s ==> m in zones
        invariant Swept(s, gone, lists) && HitsAgree(s, hits, x, y)
        decreases |s| + 1 - j
      {
        kept, j, gone := DestroyIter(i, x, y, s, hits, kept, j, gone, lists);
        i := i + 1;
      }
    }

    /**
     * Where the destroying loop stands with the group lists: `gone` holds the
     * zones of `s` removed so far, and each group's list is its list from
     * `lists` without them.
     */
    ghost predicate Swept(s: seq<InputZone>, gone: set<InputZone>, lists: map<InputGroup, seq<InputZone>>)
      reads this`zones, this`groups, groups
    {
      && (forall z :: z in zones ==> z in s)
      && (forall z :: z in gone ==> z in s && z !in zones)
      && (forall k :: 0 <= k < |s| && s[k] !in zones ==> s[k] in gone)
      && (forall g :: g in groups ==> g in lists && g.zones == Without(lists[g], gone))
    }

    /** `hits` says, slot by slot, whether the zones of `s` contain the point (x, y). */
    static ghost predicate HitsAgree(s: seq<InputZone>, hits: seq<bool>, x: int, y: int)
      reads s
    {
      |hits| == |s| && forall k :: 0 <= k < |s| ==> hits[k] == s[k].Bounds().Contains(x, y)
    }

    /** The zones recorded as gone are exactly the original ones no longer listed. */
    static lemma GoneIsRemoved(s: seq<InputZone>, zs: seq<InputZone>, gone: set<InputZone>)
      requires forall z :: z in gone ==> z in s && z !in zs
      requires forall k :: 0 <= k < |s| && s[k] !in zs ==> s[k] in gone
      ensures gone == set z | z in s && z !in zs
    {
    }

    /**
     * One turn of the `destroy_zone` loop at slot i, with the pure sweep it
     * follows advanced alongside.
     */
    method DestroyIter(i: nat, x: int, y: int, ghost s: seq<InputZone>, ghost hits: seq<bool>,
                       ghost kept: seq<InputZone>, ghost j: nat,
                       ghost gone: set<InputZone>, ghost lists: map<InputGroup, seq<InputZone>>)
        returns (ghost kept': seq<InputZone>, ghost j': nat, ghost gone': set<InputZone>)
      requires Valid() && i < |zones| && Swept(s, gone, lists) && HitsAgree(s, hits, x, y)
      requires SweepState(s, hits, zones, i, kept, j)
      requires forall g, m :: g in groups && m in g.zones && m in s ==> m in zones
      modifies this`zones, GroupRepr`zones
      ensures Valid() && GroupRepr == old(GroupRepr)
      ensures Swept(s, gone', lists) && HitsAgree(s, hits, x, y)
      ensures SweepState(s, hits, zones, i + 1, kept', j') && j' > j
      ensures forall g, m :: g in groups && m in g.zones && m in s ==> m in zones
    {
      ghost var live := zones;
      SweepSlot(s, hits, live, i, kept, j);
      var removed;
      removed, gone' := DestroyStep(i, x, y, s, hits, gone, lists);
      kept', j' := SweepAdvance(s, hits, live, i, kept, j, zones);
    }

    /** One visit of the `destroy_zone` loop, with the removed zone recorded. */
    method DestroyStep(i: nat, x: int, y: int, ghost s: seq<InputZone>, ghost hits: seq<bool>,
                       ghost gone: set<InputZone>, ghost lists: map<InputGroup, seq<InputZone>>)
        returns (removed: bool, ghost gone': set<InputZone>)
      requires Valid() && i < |zones| && Swept(s, gone, lists) && HitsAgree(s, hits, x, y)
      requires forall g, m :: g in groups && m in g.zones && m in s ==> m in zones
      modifies this`zones, GroupRepr`zones
      ensures Valid() && Swept(s, gone', lists) && HitsAgree(s, hits, x, y)
      ensures removed == old(zones[i].Bounds().Contains(x, y))
      ensures zones == if removed then old(zones[..i] + zones[i+1..]) else old(zones)
      ensures forall g, m :: g in groups && m in g.zones && m in s ==> m in zones
    {
      ghost var z := zones[i];
      removed := DestroyVisit(i, x, y, s);
      gone' := gone;
      if removed {
        forall g | g in groups
          ensures g.zones == Without(lists[g], gone + {z})
        {
          WithoutTwice(lists[g], gone, {z});
        }
        gone' := gone + {z};
      }
    }

    /** The body of the `destroy_zone` loop at slot i: the zone there is removed when it is under the pointer. */
    method DestroyVisit(i: nat, x: int, y: int, ghost s: seq<InputZone>) returns (removed: bool)
      requires Valid() && i < |zones|
      requires forall g, m :: g in groups && m in g.zones && m in s ==> m in zones
      modifies this`zones, GroupRepr`zones
      ensures Valid()
      ensures removed == old(zones[i].Bounds().Contains(x, y))
      ensures zones == if removed then old(zones[..i] + zones[i+1..]) else old(zones)
      ensures forall m :: m in zones <==> m in old(zones) && !(removed && m == old(zones[i]))
      ensures forall g, m :: g in groups && m in g.zones ==> m in old(g.zones) && !(removed && m == old(zones[i]))
      ensures forall g, m :: g in groups && m in g.zones && m in s ==> m in zones
      ensures forall g :: g in groups ==> g.zones == if removed then Without(old(g.zones), {old(zones[i])}) else old(g.zones)
    {
      var z := zones[i];
      removed := z.x1 < x < z.x2 && z.y1 < y < z.y2;
      if removed {
        RemoveFirstAt(zones, i);
        RemoveZone(z);
      }
    }
  }

  /** The directory of a single group. */
  lemma DirOfOne(g: InputGroup)
    ensures DirOf([g]) == map[g.id := g.zones]
  {
    assert [g][1..] == [];
  }

  /**
   * The session of the two-frame example: A (key 'w', group 1, priority 2)
   * and then B (key 's', group 1, priority 1) added to a new session, both
   * released; group 1 lists A then B.
   */
  method ExampleSession() returns (s: Session, a: InputZone, b: InputZone)
    ensures fresh(s) && fresh(a) && fresh(b) && s.Valid() && a != b && s.log == [] && s.ZoneRepr == {a, b}
    ensures s.zones == [a, b] && s.Directory() == map[1 := [a, b]]
    ensures s.World() == map[a := ExampleA(), b := ExampleB()]
  {
    ghost var g;
    s, a, g := ExampleFirstZone();
    b := new InputZone(20, 0, 30, 10, Some('s' as int), false, Some(1), 1);
    ghost var rb := b.Record();
    assert Find([g], 1) == Some(g);
    s.AddZone(b);
    assert s.groups == [g] && g.zones == [a, b];
    DirOfOne(g);
    assert b.Record() == rb;
    s.WorldOfTwo(a, b);
  }

  /** The first half of the example session: A alone, in a new group 1. */
  method ExampleFirstZone() returns (s: Session, a: InputZone, ghost g: InputGroup)
    ensures fresh(s) && fresh(a) && fresh(s.GroupRepr) && s.Valid() && s.log == []
    ensures s.zones == [a] && s.ZoneRepr == {a} && a.Record() == ExampleA()
    ensures s.groups == [g] && g.id == 1 && g.zones == [a]
  {
    s := new Session();
    a := new InputZone(0, 0, 10, 10, Some('w' as int), false, Some(1), 2);
    ghost var ra := a.Record();
    s.AddZone(a);
    g := s.groups[0];
    assert a.Record() == ra;
  }

  /**
   * The two-frame example run: `test_zones` once with both zones triggered
   * and once with only B triggered. The pressed flags of A and B after each
   * frame, and the key calls of both frames.
   */
  method TwoFrameSession() returns (first: (bool, bool), second: (bool, bool), ghost log: seq<Actuation>)
    ensures first == (true, false) && second == (false, true)
    ensures log == [Press('w' as int), Release('w' as int), Press('s' as int)]
  {
    var s, a, b := ExampleSession();
    first, second := ExampleFrames(s, a, b);
    log := s.log;
  }

  /** The two frames on a session set up as the example's. */
  method ExampleFrames(s: Session, a: InputZone, b: InputZone) returns (first: (bool, bool), second: (bool, bool))
    requires s.Valid() && a != b && s.zones == [a, b] && s.Directory() == map[1 := [a, b]]
    requires s.World() == map[a := ExampleA(), b := ExampleB()]
    modifies s.ZoneRepr`pressed, s`log
    ensures first == (true, false) && second == (false, true)
    ensures s.log == old(s.log) + [Press('w' as int), Release('w' as int), Press('s' as int)]
  {
    first := ExampleFirstFrame(s, a, b);
    second := ExampleSecondFrame(s, a, b);
    assert s.log == old(s.log) + [Press('w' as int)] + [Release('w' as int), Press('s' as int)];
  }

  /** The first frame: both zones triggered; A is pressed, B is outranked. */
  method ExampleFirstFrame(s: Session, a: InputZone, b: InputZone) returns (first: (bool, bool))
    requires s.Valid() && a != b && s.zones == [a, b] && s.Directory() == map[1 := [a, b]]
    requires s.World() == map[a := ExampleA(), b := ExampleB()]
    modifies s.ZoneRepr`pressed, s`log
    ensures s.Valid() && s.Directory() == map[1 := [a, b]]
    ensures s.World() == map[a := ExampleA(), b := ExampleB()][a := ExampleA().(pressed := true)]
    ensures s.log == old(s.log) + [Press('w' as int)]
    ensures first == (true, false)
  {
    FirstFrame(a, b, s.World());
    s.TestZones([20000, 20000]);
    first := (a.pressed, b.pressed);
    assert s.World()[a].pressed && !s.World()[b].pressed;
  }

  /** The second frame: only B triggered; A is released and B pressed. */
  method ExampleSecondFrame(s: Session, a: InputZone, b: InputZone) returns (second: (bool, bool))
    requires s.Valid() && a != b && s.zones == [a, b] && s.Directory() == map[1 := [a, b]]
    requires s.World() == map[a := ExampleA(), b := ExampleB()][a := ExampleA().(pressed := true)]
    modifies s.ZoneRepr`pressed, s`log
    ensures s.log == old(s.log) + [Release('w' as int), Press('s' as int)]
    ensures second == (false, true)
  {
    SecondFrame(a, b, map[a := ExampleA(), b := ExampleB()]);
    s.TestZones([0, 20000]);
    second := (a.pressed, b.pressed);
    assert !s.World()[a].pressed && s.World()[b].pressed;
  }
}
