/**
 * What the editor commands of main.py do to the zone list, stated on values:
 * the list of zone records (the zones' attribute dictionaries) before and after.
 */
module Editing {
  import opened Wrappers
  import opened InputZones

  /** Side of the square a create command spawns. */
  const NewZoneSize: int := 50

  /** The zone `create_zone(x, y)` appends: 50 by 50 at the pointer, no key, not inverted, ungrouped, priority 0. */
  function NewZone(x: int, y: int): (r: ZoneRecord)
    ensures r.Bounds().Contains(x + 1, y + 1) && r.Bounds().Width() == NewZoneSize
  {
    ZoneRecord(x, y, x + NewZoneSize, y + NewZoneSize, None, false, None, 0, false)
  }

  predicate Hit(r: ZoneRecord, x: int, y: int) {
    r.Bounds().Contains(x, y)
  }

  /** Index of the first record whose bounds strictly contain (x, y): the loops that `break`. */
  function FirstHit(rs: seq<ZoneRecord>, x: int, y: int): (h: Option<nat>)
    ensures h.Some? ==> h.value < |rs| && Hit(rs[h.value], x, y)
    ensures h.Some? ==> forall j :: 0 <= j < h.value ==> !Hit(rs[j], x, y)
    ensures h.None? <==> forall j :: 0 <= j < |rs| ==> !Hit(rs[j], x, y)
  {
    if rs == [] then None
    else if Hit(rs[0], x, y) then Some(0)
    else match FirstHit(rs[1..], x, y)
      case None => None
      case Some(k) => Some(k + 1)
  }

  /** Lists whose bounds agree record by record have the same first hit. */
  lemma {:induction false} FirstHitOnlyGeometry(rs: seq<ZoneRecord>, ts: seq<ZoneRecord>, x: int, y: int)
    requires |rs| == |ts|
    requires forall i :: 0 <= i < |rs| ==> rs[i].Bounds() == ts[i].Bounds()
    ensures FirstHit(rs, x, y) == FirstHit(ts, x, y)
  {
    if rs != [] {
      FirstHitOnlyGeometry(rs[1..], ts[1..], x, y);
    }
  }

  /** The one-shot attribute commands: `set_key`, `set_group`, `set_priority`. */
  datatype Edit = SetKeyTo(key: int) | SetGroupTo(group: int) | SetPriorityTo(priority: int)

  /** One attribute assignment: the edited attribute takes the new value, every other one is kept. */
  function Apply(r: ZoneRecord, e: Edit): (out: ZoneRecord)
    ensures out.Bounds() == r.Bounds() && out.pressed == r.pressed && out.inverted == r.inverted
    ensures e.SetKeyTo? ==> out.key == Some(e.key) && out.group == r.group && out.priority == r.priority
    ensures e.SetGroupTo? ==> out.group == Some(e.group) && out.key == r.key && out.priority == r.priority
    ensures e.SetPriorityTo? ==> out.priority == e.priority && out.key == r.key && out.group == r.group
  {
    match e
    case SetKeyTo(k) => r.(key := Some(k))
    case SetGroupTo(g) => r.(group := Some(g))
    case SetPriorityTo(p) => r.(priority := p)
  }

  /** An attribute command changes only the first zone under the pointer, and only in that attribute. */
  function EditFirstHit(rs: seq<ZoneRecord>, x: int, y: int, e: Edit): (out: seq<ZoneRecord>)
    ensures |out| == |rs|
    ensures forall i :: 0 <= i < |rs| && FirstHit(rs, x, y) != Some(i) ==> out[i] == rs[i]
    ensures forall i :: 0 <= i < |rs| ==> out[i].Bounds() == rs[i].Bounds()
    ensures forall i :: 0 <= i < |rs| ==> out[i].pressed == rs[i].pressed && out[i].inverted == rs[i].inverted
    ensures FirstHit(rs, x, y).Some? ==>
      var h := FirstHit(rs, x, y).value;
      match e
      case SetKeyTo(k) => out[h].key == Some(k) && out[h].group == rs[h].group && out[h].priority == rs[h].priority
      case SetGroupTo(g) => out[h].group == Some(g) && out[h].key == rs[h].key && out[h].priority == rs[h].priority
      case SetPriorityTo(p) => out[h].priority == p && out[h].key == rs[h].key && out[h].group == rs[h].group
  {
    match FirstHit(rs, x, y)
    case None => rs
    case Some(h) => rs[h := Apply(rs[h], e)]
  }

  /** Repeating an attribute command at the same pointer changes nothing more. */
  lemma EditFirstHitIdempotent(rs: seq<ZoneRecord>, x: int, y: int, e: Edit)
    ensures EditFirstHit(EditFirstHit(rs, x, y, e), x, y, e) == EditFirstHit(rs, x, y, e)
  {
    FirstHitOnlyGeometry(rs, EditFirstHit(rs, x, y, e), x, y);
  }

  /** `invert_zone`: every zone under the pointer flips `inverted` (the loop has no `break`). */
  function InvertHits(rs: seq<ZoneRecord>, x: int, y: int): (out: seq<ZoneRecord>)
    ensures |out| == |rs|
    ensures forall i :: 0 <= i < |rs| && !Hit(rs[i], x, y) ==> out[i] == rs[i]
    ensures forall i :: 0 <= i < |rs| && Hit(rs[i], x, y) ==>
      out[i] == rs[i].(inverted := !rs[i].inverted)
  {
    if rs == [] then []
    else [if Hit(rs[0], x, y) then rs[0].(inverted := !rs[0].inverted) else rs[0]]
         + InvertHits(rs[1..], x, y)
  }

  /** Inverting twice at the same pointer restores every zone. */
  lemma InvertHitsInvolution(rs: seq<ZoneRecord>, x: int, y: int)
    ensures InvertHits(InvertHits(rs, x, y), x, y) == rs
  {
    var once := InvertHits(rs, x, y);
    var twice := InvertHits(once, x, y);
    forall i | 0 <= i < |rs| ensures twice[i] == rs[i] {
      assert once[i].Bounds() == rs[i].Bounds();
    }
  }

  /** Which records contain the pointer, in list order. */
  function HitMask(rs: seq<ZoneRecord>, x: int, y: int): seq<bool> {
    seq(|rs|, i requires 0 <= i < |rs| => Hit(rs[i], x, y))
  }

  /**
   * `destroy_zone`: the for-loop removes from the list it walks, so after a
   * zone is removed the next one slides into the visited slot and is never
   * tested. `hits[i]` says whether the i-th zone contains the pointer.
   */
  function Sweep<T>(s: seq<T>, hits: seq<bool>): (out: seq<T>)
    requires |hits| == |s|
    ensures |out| <= |s|
  {
    if s == [] then []
    else if hits[0] then (if |s| == 1 then [] else [s[1]] + Sweep(s[2..], hits[2..]))
    else [s[0]] + Sweep(s[1..], hits[1..])
  }

  /** With no zone under the pointer, destroying removes nothing. */
  lemma {:induction false} SweepNoHits<T>(s: seq<T>, hits: seq<bool>)
    requires |hits| == |s|
    requires forall i :: 0 <= i < |s| ==> !hits[i]
    ensures Sweep(s, hits) == s
  {
    if s != [] {
      SweepNoHits(s[1..], hits[1..]);
    }
  }

  /** A zone that does not contain the pointer is never removed. */
  lemma {:induction false} SweepKeepsMisses<T>(s: seq<T>, hits: seq<bool>, j: nat)
    requires |hits| == |s| && j < |s| && !hits[j]
    ensures s[j] in Sweep(s, hits)
  {
    if j == 0 {
    } else if hits[0] {
      if j > 1 {
        SweepKeepsMisses(s[2..], hits[2..], j - 2);
      }
    } else {
      SweepKeepsMisses(s[1..], hits[1..], j - 1);
    }
  }

  /** Destroying keeps the survivors in their original relative order, without duplicates. */
  lemma {:induction false} SweepDistinct<T>(s: seq<T>, hits: seq<bool>)
    requires |hits| == |s|
    requires forall i, j :: 0 <= i < j < |s| ==> s[i] != s[j]
    ensures forall i, j :: 0 <= i < j < |Sweep(s, hits)| ==> Sweep(s, hits)[i] != Sweep(s, hits)[j]
  {
    if s == [] {
    } else if hits[0] {
      if |s| > 1 {
        SweepDistinct(s[2..], hits[2..]);
        SweepSubset(s[2..], hits[2..]);
        assert s[1] !in s[2..];
      }
    } else {
      SweepDistinct(s[1..], hits[1..]);
      SweepSubset(s[1..], hits[1..]);
      assert s[0] !in s[1..];
    }
  }

  /** The first zone under the pointer is always removed. */
  lemma {:induction false} SweepRemovesFirstHit<T>(s: seq<T>, hits: seq<bool>, i: nat)
    requires |hits| == |s| && i < |s| && hits[i]
    requires forall j :: 0 <= j < i ==> !hits[j]
    requires forall a, b :: 0 <= a < b < |s| ==> s[a] != s[b]
    ensures s[i] !in Sweep(s, hits)
  {
    if i == 0 {
      if |s| > 1 {
        SweepSubset(s[2..], hits[2..]);
        assert s[0] !in s[2..];
      }
    } else {
      SweepRemovesFirstHit(s[1..], hits[1..], i - 1);
      assert s[i] != s[0];
    }
  }

  /**
   * Whether the loop of `destroy_zone` tests the i-th zone of the original
   * list: every zone is tested except the one right after a removed zone,
   * which slides into the removed zone's slot.
   */
  ghost predicate Tested(hits: seq<bool>, i: nat)
    decreases |hits|
  {
    if i >= |hits| then false
    else if i == 0 then true
    else if !hits[0] then Tested(hits[1..], i - 1)
    else i >= 2 && Tested(hits[2..], i - 2)
  }

  /** Up to the first zone under the pointer, every zone is tested. */
  lemma {:induction false} UnhitPrefixTested(hits: seq<bool>, i: nat)
    requires i < |hits|
    requires forall j :: 0 <= j < i ==> !hits[j]
    ensures Tested(hits, i)
  {
    if i > 0 {
      UnhitPrefixTested(hits[1..], i - 1);
    }
  }

  /** A removed zone's follower is not tested. */
  lemma {:induction false} FollowerUntested(hits: seq<bool>, i: nat)
    requires Tested(hits, i) && hits[i]
    ensures !Tested(hits, i + 1)
    decreases |hits|
  {
    if i > 0 {
      if !hits[0] {
        FollowerUntested(hits[1..], i - 1);
      } else {
        FollowerUntested(hits[2..], i - 2);
      }
    }
  }

  /** A zone the loop does not remove (untested, or tested and not under the pointer) survives. */
  lemma {:induction false} SweepKeepsUnremoved<T>(s: seq<T>, hits: seq<bool>, i: nat)
    requires |hits| == |s| && i < |s|
    requires !(Tested(hits, i) && hits[i])
    ensures s[i] in Sweep(s, hits)
    decreases |s|
  {
    if i == 0 {
    } else if !hits[0] {
      SweepKeepsUnremoved(s[1..], hits[1..], i - 1);
    } else if i >= 2 {
      SweepKeepsUnremoved(s[2..], hits[2..], i - 2);
    }
  }

  /** In a list without duplicates, a zone the loop tests and finds under the pointer is removed. */
  lemma {:induction false} SweepRemovesTested<T>(s: seq<T>, hits: seq<bool>, i: nat)
    requires |hits| == |s| && i < |s|
    requires Tested(hits, i) && hits[i]
    requires forall a, b :: 0 <= a < b < |s| ==> s[a] != s[b]
    ensures s[i] !in Sweep(s, hits)
    decreases |s|
  {
    if i == 0 {
      if |s| > 1 {
        SweepSubset(s[2..], hits[2..]);
        assert s[0] !in s[2..];
      }
    } else if !hits[0] {
      SweepRemovesTested(s[1..], hits[1..], i - 1);
      assert s[i] != s[0];
    } else {
      SweepRemovesTested(s[2..], hits[2..], i - 2);
      assert s[i] != s[1];
    }
  }

  /** Exactly the zones the loop tests and finds under the pointer are destroyed. */
  lemma SweepRemoves<T>(s: seq<T>, hits: seq<bool>, i: nat)
    requires |hits| == |s| && i < |s|
    requires forall a, b :: 0 <= a < b < |s| ==> s[a] != s[b]
    ensures s[i] !in Sweep(s, hits) <==> Tested(hits, i) && hits[i]
  {
    if Tested(hits, i) && hits[i] {
      SweepRemovesTested(s, hits, i);
    } else {
      SweepKeepsUnremoved(s, hits, i);
    }
  }

  /** The zone right after any removed one is skipped by the loop and survives, even under the pointer. */
  lemma SweepSparesFollower<T>(s: seq<T>, hits: seq<bool>, i: nat)
    requires |hits| == |s| && i + 1 < |s| && Tested(hits, i) && hits[i]
    ensures s[i + 1] in Sweep(s, hits)
  {
    FollowerUntested(hits, i);
    SweepKeepsUnremoved(s, hits, i + 1);
  }

  /** In particular the zone right after the first one under the pointer survives. */
  lemma SweepSparesFirstFollower<T>(s: seq<T>, hits: seq<bool>, i: nat)
    requires |hits| == |s| && i + 1 < |s| && hits[i]
    requires forall j :: 0 <= j < i ==> !hits[j]
    ensures s[i + 1] in Sweep(s, hits)
  {
    UnhitPrefixTested(hits, i);
    SweepSparesFollower(s, hits, i);
  }

  /** With all four zones under the pointer, the loop destroys the first and third and keeps the other two. */
  lemma SweepAllHitFour<T>(a: T, b: T, c: T, d: T)
    ensures Sweep([a, b, c, d], [true, true, true, true]) == [b, d]
  {
    assert [a, b, c, d][2..] == [c, d];
    assert [true, true, true, true][2..] == [true, true];
  }

  /** Sweeping a suffix: one step of the loop at the j-th original zone. */
  lemma SweepFrom<T>(s: seq<T>, hits: seq<bool>, j: nat)
    requires |hits| == |s| && j < |s|
    ensures Sweep(s[j..], hits[j..]) ==
      if !hits[j] then [s[j]] + Sweep(s[j+1..], hits[j+1..])
      else if j + 1 == |s| then []
      else [s[j+1]] + Sweep(s[j+2..], hits[j+2..])
  {
    assert s[j..][1..] == s[j+1..];
    assert hits[j..][1..] == hits[j+1..];
    if j + 1 < |s| {
      assert s[j..][2..] == s[j+2..];
      assert hits[j..][2..] == hits[j+2..];
    }
  }

  /** Destroying only removes: every survivor was in the list. */
  lemma {:induction false} SweepSubset<T>(s: seq<T>, hits: seq<bool>)
    requires |hits| == |s|
    ensures forall t :: t in Sweep(s, hits) ==> t in s
  {
    if s == [] {
    } else if hits[0] {
      if |s| > 1 {
        SweepSubset(s[2..], hits[2..]);
        assert forall t :: t in s[2..] ==> t in s;
      }
    } else {
      SweepSubset(s[1..], hits[1..]);
      assert forall t :: t in s[1..] ==> t in s;
    }
  }

  /** `Sweep` of the suffix from position j, counted by index rather than by slicing. */
  function SweepAt<T>(s: seq<T>, hits: seq<bool>, j: nat): seq<T>
    requires |hits| == |s|
    decreases |s| - j
  {
    if j >= |s| then []
    else if !hits[j] then [s[j]] + SweepAt(s, hits, j + 1)
    else if j + 1 == |s| then []
    else [s[j+1]] + SweepAt(s, hits, j + 2)
  }

  lemma {:induction false} SweepAtIsSweep<T>(s: seq<T>, hits: seq<bool>, j: nat)
    requires |hits| == |s| && j <= |s|
    ensures SweepAt(s, hits, j) == Sweep(s[j..], hits[j..])
    decreases |s| - j
  {
    if j < |s| {
      SweepFrom(s, hits, j);
      if !hits[j] {
        SweepAtIsSweep(s, hits, j + 1);
      } else if j + 1 < |s| {
        SweepAtIsSweep(s, hits, j + 2);
      }
    }
  }

  /**
   * What `Sweep` does to a list under the pointer mask: zones outside the
   * pointer survive, nothing changes when no zone is hit, and the first hit
   * is always removed.
   */
  lemma DestroyOutcome<T>(s: seq<T>, hits: seq<bool>, rs: seq<ZoneRecord>, x: int, y: int)
    requires |rs| == |s| && hits == HitMask(rs, x, y)
    requires forall a, b :: 0 <= a < b < |s| ==> s[a] != s[b]
    ensures forall i :: 0 <= i < |s| && !Hit(rs[i], x, y) ==> s[i] in Sweep(s, hits)
    ensures FirstHit(rs, x, y).None? ==> Sweep(s, hits) == s
    ensures FirstHit(rs, x, y).Some? ==> s[FirstHit(rs, x, y).value] !in Sweep(s, hits)
  {
    forall i | 0 <= i < |s| && !Hit(rs[i], x, y) ensures s[i] in Sweep(s, hits) {
      SweepKeepsMisses(s, hits, i);
    }
    var h := FirstHit(rs, x, y);
    if h.None? {
      SweepNoHits(s, hits);
    } else {
      SweepRemovesFirstHit(s, hits, h.value);
    }
  }

  /**
   * Where the destroying loop stands: slot i of the live list holds the j-th
   * original zone and `kept` is what survived before it, or the loop has
   * stepped past the end of the list after removing the last zone.
   */
  ghost predicate SweepState<T>(s: seq<T>, hits: seq<bool>, live: seq<T>, i: nat, kept: seq<T>, j: nat)
    requires |hits| == |s|
  {
    && (i <= |live| ==>
         i == |kept| && j <= |s| && live == kept + s[j..] && SweepAt(s, hits, 0) == kept + SweepAt(s, hits, j))
    && (i > |live| ==> i == |live| + 1 && live == SweepAt(s, hits, 0))
  }

  /** The slot the destroying loop visits next holds the zone `s[j]`. */
  lemma SweepSlot<T>(s: seq<T>, hits: seq<bool>, live: seq<T>, i: nat, kept: seq<T>, j: nat)
    requires |hits| == |s| && SweepState(s, hits, live, i, kept, j) && i < |live|
    ensures j < |s| && live[i] == s[j]
  {
    assert live[i] == (kept + s[j..])[i];
  }

  /**
   * One iteration of the destroying loop: the zone in slot i is cut out when
   * it is under the pointer, and the loop moves to slot i + 1 either way.
   */
  lemma SweepAdvance<T>(s: seq<T>, hits: seq<bool>, live: seq<T>, i: nat, kept: seq<T>, j: nat, live': seq<T>)
      returns (kept': seq<T>, j': nat)
    requires |hits| == |s| && SweepState(s, hits, live, i, kept, j) && i < |live|
    requires live' == if hits[j] then live[..i] + live[i+1..] else live
    ensures live[i] == s[j]
    ensures SweepState(s, hits, live', i + 1, kept', j')
    ensures j' > j
  {
    SliceCons(s, j);
    CutSlot(kept, s[j..]);
    if hits[j] {
      if j + 1 < |s| {
        SliceCons(s, j + 1);
        Assoc(kept, [s[j+1]], s[j+2..]);
        Assoc(kept, [s[j+1]], SweepAt(s, hits, j + 2));
        kept' := kept + [s[j+1]];
      } else {
        kept' := kept;
      }
      j' := j + 2;
    } else {
      Assoc(kept, [s[j]], s[j+1..]);
      Assoc(kept, [s[j]], SweepAt(s, hits, j + 1));
      kept', j' := kept + [s[j]], j + 1;
    }
  }

  /** A suffix from position j is its first element followed by the suffix from j + 1. */
  lemma SliceCons<T>(s: seq<T>, j: nat)
    requires j < |s|
    ensures s[j..] == [s[j]] + s[j+1..] && s[j..][1..] == s[j+1..]
  {
  }

  lemma Assoc<T>(a: seq<T>, b: seq<T>, c: seq<T>)
    ensures a + (b + c) == (a + b) + c
  {
  }

  /** Cutting the first element of `rest` out of `kept + rest`. */
  lemma CutSlot<T>(kept: seq<T>, rest: seq<T>)
    requires rest != []
    ensures (kept + rest)[..|kept|] + (kept + rest)[|kept| + 1..] == kept + rest[1..]
  {
    var live := kept + rest;
    assert live[..|kept|] == kept;
    assert live[|kept| + 1..] == rest[1..];
  }
}
