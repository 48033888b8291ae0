/**
 * Press/release arbitration of main.py stated on zone records: which group
 * members block an activation, which ones the activation releases, and the
 * key actuations that result.
 */
module Arbitration {
  import opened Wrappers
  import opened InputZones

  /** Summed motion intensity a zone must exceed to count as triggered. */
  const Threshold: int := 10000

  /** One call into the key controller. */
  datatype Actuation = Press(key: int) | Release(key: int)

  /** The raw per-frame signal: motion above the threshold, flipped for an inverted zone. */
  predicate Triggered(sum: int, inverted: bool)
    ensures !inverted ==> (Triggered(sum, inverted) <==> sum > Threshold)
    ensures inverted ==> (Triggered(sum, inverted) <==> sum <= Threshold)
  {
    (sum > Threshold) != inverted
  }

  function PressOf(key: Option<int>): (a: seq<Actuation>)
    ensures |a| <= 1 && (a != [] <==> key.Some?)
  {
    if key.Some? then [Press(key.value)] else []
  }

  function ReleaseOf(key: Option<int>): (a: seq<Actuation>)
    ensures |a| <= 1 && (a != [] <==> key.Some?)
  {
    if key.Some? then [Release(key.value)] else []
  }

  /** A pressed member of the same group with strictly higher priority keeps z from activating. */
  predicate Blocks(m: ZoneRecord, z: ZoneRecord)
    ensures Blocks(m, z) ==> !Lowered(m, z)
    ensures Blocks(m, z) <==> m.pressed && Lowered(z.(pressed := true), m)
  {
    m.group == z.group && m.priority > z.priority && m.pressed
  }

  /** A pressed member of the same group with strictly lower priority is released when z activates. */
  predicate Lowered(m: ZoneRecord, z: ZoneRecord)
  {
    m.group == z.group && m.priority < z.priority && m.pressed
  }

  /**
   * The snapshot side of `test_zones`: `w` holds every zone's attributes by
   * zone, `dir` each group id's member list.
   */

  /** The records a snapshot holds for a list of zones, in list order. */
  function RecordsOf(w: map<InputZone, ZoneRecord>, ms: seq<InputZone>): (rs: seq<ZoneRecord>)
    requires forall m :: m in ms ==> m in w
    ensures |rs| == |ms| && forall i :: 0 <= i < |ms| ==> rs[i] == w[ms[i]]
  {
    seq(|ms|, i requires 0 <= i < |ms| => w[ms[i]])
  }

  /** The member list of the group with the given id, or none. */
  function DirMembers(dir: map<int, seq<InputZone>>, id: Option<int>): seq<InputZone> {
    if id.Some? && id.value in dir then dir[id.value] else []
  }

  /** Every member listed in the directory has a record in the snapshot. */
  ghost predicate Closed(w: map<InputZone, ZoneRecord>, dir: map<int, seq<InputZone>>) {
    forall id: Option<int>, m :: m in DirMembers(dir, id) ==> m in w
  }

  /**
   * One turn of `test_zones` on a snapshot: a triggered zone is activated as
   * `activate_zone` does, any other one deactivated as `deactivate_zone`
   * does. The result is the next snapshot and the calls made to the key
   * controller.
   */
  ghost function Turn(w: map<InputZone, ZoneRecord>, dir: map<int, seq<InputZone>>, zone: InputZone, triggered: bool)
    : (r: (map<InputZone, ZoneRecord>, seq<Actuation>))
    requires zone in w && Closed(w, dir)
    ensures r.0.Keys == w.Keys
  {
    var z := w[zone];
    var ms := DirMembers(dir, z.group);
    if !triggered then
      (w[zone := z.(pressed := false)], if z.pressed then ReleaseOf(z.key) else [])
    else if z.pressed || !(forall m :: m in ms && m != zone ==> !Blocks(w[m], z)) then
      (w, [])
    else
      (map m | m in w :: if m == zone then z.(pressed := true)
                         else w[m].(pressed := w[m].pressed && !(m in ms && Lowered(w[m], z))),
       PressOf(z.key) + CascadeLog(RecordsOf(w, ms), z))
  }

  /**
   * `test_zones` on a snapshot: the zones of `zs` take their turns in list
   * order, zone i triggered by `sums[i]` and its inversion flag.
   */
  ghost function Run(w: map<InputZone, ZoneRecord>, dir: map<int, seq<InputZone>>, zs: seq<InputZone>, sums: seq<int>)
    : (r: (map<InputZone, ZoneRecord>, seq<Actuation>))
    requires Closed(w, dir) && |sums| == |zs| && forall z :: z in zs ==> z in w
    ensures r.0.Keys == w.Keys
    decreases |zs|
  {
    if zs == [] then (w, [])
    else
      var n := |zs| - 1;
      var before := Run(w, dir, zs[..n], sums[..n]);
      var t := Turn(before.0, dir, zs[n], Triggered(sums[n], before.0[zs[n]].inverted));
      (t.0, before.1 + t.1)
  }

  /**
   * What a turn promises: only pressed flags change; no other zone is
   * pressed by it and no other ungrouped zone is touched; the zone is
   * released when not triggered and pressed when triggered and ungrouped.
   */
  lemma TurnEffect(w: map<InputZone, ZoneRecord>, dir: map<int, seq<InputZone>>, zone: InputZone, triggered: bool)
    requires zone in w && Closed(w, dir)
    ensures var r := Turn(w, dir, zone, triggered).0;
      && (forall m :: m in w ==> r[m] == w[m].(pressed := r[m].pressed))
      && (forall m :: m in w && m != zone && r[m].pressed ==> w[m].pressed)
      && (forall m :: m in w && m != zone && w[m].group.None? ==> r[m].pressed == w[m].pressed)
      && (!triggered ==> !r[zone].pressed)
      && (triggered && w[zone].group.None? ==> r[zone].pressed)
  {
  }

  /** `Run` changes pressed flags only. */
  lemma {:induction false} RunKeepsAttributes(w: map<InputZone, ZoneRecord>, dir: map<int, seq<InputZone>>,
                                              zs: seq<InputZone>, sums: seq<int>)
    requires Closed(w, dir) && |sums| == |zs| && (forall z :: z in zs ==> z in w)
    ensures var r := Run(w, dir, zs, sums).0;
      forall m :: m in w ==> r[m] == w[m].(pressed := r[m].pressed)
    decreases |zs|
  {
    if zs != [] {
      var n := |zs| - 1;
      RunKeepsAttributes(w, dir, zs[..n], sums[..n]);
      var before := Run(w, dir, zs[..n], sums[..n]).0;
      TurnEffect(before, dir, zs[n], Triggered(sums[n], before[zs[n]].inverted));
    }
  }

  /**
   * What `Run` promises for distinct zones: an untriggered zone ends
   * released, and an ungrouped zone ends pressed exactly when triggered.
   */
  lemma RunSettles(w: map<InputZone, ZoneRecord>, dir: map<int, seq<InputZone>>, zs: seq<InputZone>, sums: seq<int>)
    requires Closed(w, dir) && |sums| == |zs| && (forall z :: z in zs ==> z in w)
    requires forall i, j :: 0 <= i < j < |zs| ==> zs[i] != zs[j]
    ensures var r := Run(w, dir, zs, sums).0;
      && (forall k :: 0 <= k < |zs| && !Triggered(sums[k], w[zs[k]].inverted) ==> !r[zs[k]].pressed)
      && (forall k :: 0 <= k < |zs| && w[zs[k]].group.None? ==> r[zs[k]].pressed == Triggered(sums[k], w[zs[k]].inverted))
  {
    forall k | 0 <= k < |zs| && !Triggered(sums[k], w[zs[k]].inverted)
      ensures !Run(w, dir, zs, sums).0[zs[k]].pressed
    {
      RunReleases(w, dir, zs, sums, k);
    }
    forall k | 0 <= k < |zs| && w[zs[k]].group.None?
      ensures Run(w, dir, zs, sums).0[zs[k]].pressed == Triggered(sums[k], w[zs[k]].inverted)
    {
      RunFollowsUngrouped(w, dir, zs, sums, k);
    }
  }

  /** An untriggered zone, the k-th of the run, ends it released. */
  lemma {:induction false} RunReleases(w: map<InputZone, ZoneRecord>, dir: map<int, seq<InputZone>>, zs: seq<InputZone>, sums: seq<int>,
                                       k: nat)
    requires Closed(w, dir) && |sums| == |zs| && (forall z :: z in zs ==> z in w)
    requires forall i, j :: 0 <= i < j < |zs| ==> zs[i] != zs[j]
    requires k < |zs| && !Triggered(sums[k], w[zs[k]].inverted)
    ensures !Run(w, dir, zs, sums).0[zs[k]].pressed
    decreases |zs|
  {
    var n := |zs| - 1;
    RunKeepsAttributes(w, dir, zs[..n], sums[..n]);
    var before := Run(w, dir, zs[..n], sums[..n]).0;
    var t := Triggered(sums[n], before[zs[n]].inverted);
    TurnEffect(before, dir, zs[n], t);
    if k < n {
      assert zs[k] == zs[..n][k] && sums[k] == sums[..n][k];
      RunReleases(w, dir, zs[..n], sums[..n], k);
      assert zs[k] != zs[n];
    }
  }

  /** An ungrouped zone, the k-th of the run, ends it pressed exactly when triggered. */
  lemma {:induction false} RunFollowsUngrouped(w: map<InputZone, ZoneRecord>, dir: map<int, seq<InputZone>>,
                                               zs: seq<InputZone>, sums: seq<int>, k: nat)
    requires Closed(w, dir) && |sums| == |zs| && (forall z :: z in zs ==> z in w)
    requires forall i, j :: 0 <= i < j < |zs| ==> zs[i] != zs[j]
    requires k < |zs| && w[zs[k]].group.None?
    ensures Run(w, dir, zs, sums).0[zs[k]].pressed == Triggered(sums[k], w[zs[k]].inverted)
    decreases |zs|
  {
    var n := |zs| - 1;
    RunKeepsAttributes(w, dir, zs[..n], sums[..n]);
    var before := Run(w, dir, zs[..n], sums[..n]).0;
    var t := Triggered(sums[n], before[zs[n]].inverted);
    TurnEffect(before, dir, zs[n], t);
    if k < n {
      assert zs[k] == zs[..n][k] && sums[k] == sums[..n][k];
      RunFollowsUngrouped(w, dir, zs[..n], sums[..n], k);
      assert zs[k] != zs[n];
    }
  }

  /**
   * After the first i turns of `Run` over `zs` from `w`, the snapshot is `cur`
   * and the log, started at `log0`, is `curLog`.
   */
  ghost predicate RanTo(w: map<InputZone, ZoneRecord>, dir: map<int, seq<InputZone>>, log0: seq<Actuation>,
                        zs: seq<InputZone>, sums: seq<int>, i: nat, cur: map<InputZone, ZoneRecord>, curLog: seq<Actuation>)
  {
    && Closed(w, dir) && i <= |zs| == |sums| && (forall z :: z in zs ==> z in w)
    && cur == Run(w, dir, zs[..i], sums[..i]).0
    && curLog == log0 + Run(w, dir, zs[..i], sums[..i]).1
  }

  /** One more turn of `Run`: turn i taken on the snapshot reached after i turns. */
  lemma RunStep(w: map<InputZone, ZoneRecord>, dir: map<int, seq<InputZone>>, log0: seq<Actuation>,
                zs: seq<InputZone>, sums: seq<int>, i: nat, cur: map<InputZone, ZoneRecord>, curLog: seq<Actuation>,
                triggered: bool, next: map<InputZone, ZoneRecord>, nextLog: seq<Actuation>)
    requires RanTo(w, dir, log0, zs, sums, i, cur, curLog) && i < |zs|
    requires triggered == Triggered(sums[i], cur[zs[i]].inverted)
    requires next == Turn(cur, dir, zs[i], triggered).0 && nextLog == curLog + Turn(cur, dir, zs[i], triggered).1
    ensures RanTo(w, dir, log0, zs, sums, i + 1, next, nextLog)
  {
    assert zs[..i+1][..i] == zs[..i] && sums[..i+1][..i] == sums[..i];
  }

  /** The releases z's cascade issues, in member order: one per lowered member that has a key. */
  function CascadeLog(ms: seq<ZoneRecord>, z: ZoneRecord): (a: seq<Actuation>)
    ensures |a| <= |ms|
  {
    if ms == [] then []
    else (if Lowered(ms[0], z) then ReleaseOf(ms[0].key) else []) + CascadeLog(ms[1..], z)
  }

  /** The cascade log of a prefix grows by the release of the next member when that member is lowered. */
  lemma {:induction false} CascadeLogSplit(ms: seq<ZoneRecord>, z: ZoneRecord, i: nat)
    requires i < |ms|
    ensures CascadeLog(ms[..i+1], z) == CascadeLog(ms[..i], z) + (if Lowered(ms[i], z) then ReleaseOf(ms[i].key) else [])
  {
    if i == 0 {
      assert ms[..1][1..] == [];
    } else {
      assert ms[..i+1][1..] == ms[1..][..i];
      assert ms[..i][1..] == ms[1..][..i-1];
      CascadeLogSplit(ms[1..], z, i - 1);
    }
  }

  /**
   * The cascade only releases, and it issues nothing exactly when no member
   * with a key is lowered (in particular, equal priorities release nothing).
   */
  lemma {:induction false} CascadeLogReleases(ms: seq<ZoneRecord>, z: ZoneRecord)
    ensures forall x :: x in CascadeLog(ms, z) ==> x.Release?
    ensures CascadeLog(ms, z) == [] <==> forall k :: 0 <= k < |ms| ==> !Lowered(ms[k], z) || ms[k].key.None?
  {
    if ms != [] {
      CascadeLogReleases(ms[1..], z);
      assert forall k :: 1 <= k < |ms| ==> ms[k] == ms[1..][k - 1];
    }
  }

  /** Zone A of the two-frame example: key 'w', group 1, priority 2, released. */
  function ExampleA(): ZoneRecord {
    ZoneRecord(0, 0, 10, 10, Some('w' as int), false, Some(1), 2, false)
  }

  /** Zone B of the two-frame example: key 's', group 1, priority 1, released. */
  function ExampleB(): ZoneRecord {
    ZoneRecord(20, 0, 30, 10, Some('s' as int), false, Some(1), 1, false)
  }

  /** A run over two zones is two turns. */
  lemma RunTwo(w: map<InputZone, ZoneRecord>, dir: map<int, seq<InputZone>>, a: InputZone, b: InputZone, x: int, y: int)
    requires Closed(w, dir) && a in w && b in w
    ensures var t1 := Turn(w, dir, a, Triggered(x, w[a].inverted));
      && var t2 := Turn(t1.0, dir, b, Triggered(y, t1.0[b].inverted));
      && Run(w, dir, [a, b], [x, y]) == (t2.0, t1.1 + t2.1)
  {
    var t1 := Turn(w, dir, a, Triggered(x, w[a].inverted));
    assert Run(w, dir, [a], [x]) == t1 by {
      assert [a][..0] == [] && [x][..0] == [];
      assert [] + t1.1 == t1.1;
    }
    assert [a, b][..1] == [a] && [x, y][..1] == [x];
  }

  /** No member is lowered, and none released, when none is pressed. */
  lemma {:induction false} CascadeQuiet(ms: seq<ZoneRecord>, z: ZoneRecord)
    requires forall i :: 0 <= i < |ms| ==> !ms[i].pressed
    ensures CascadeLog(ms, z) == []
  {
    if ms != [] {
      CascadeQuiet(ms[1..], z);
    }
  }

  /**
   * A triggered released zone whose group has no other pressed member is
   * pressed, with its key and no release: nothing blocks it and nothing is
   * lowered.
   */
  lemma QuietPress(w: map<InputZone, ZoneRecord>, dir: map<int, seq<InputZone>>, zone: InputZone)
    requires zone in w && Closed(w, dir) && !w[zone].pressed
    requires forall m :: m in DirMembers(dir, w[zone].group) && m != zone ==> !w[m].pressed
    ensures Turn(w, dir, zone, true) == (w[zone := w[zone].(pressed := true)], PressOf(w[zone].key))
  {
    var z := w[zone];
    var ms := DirMembers(dir, z.group);
    var rs := RecordsOf(w, ms);
    forall i | 0 <= i < |rs|
      ensures !rs[i].pressed
    {
      assert rs[i] == w[ms[i]];
      if ms[i] == zone {
        assert rs[i] == z;
      }
    }
    CascadeQuiet(rs, z);
    assert PressOf(z.key) + CascadeLog(rs, z) == PressOf(z.key);
    assert forall m :: m in ms && m != zone ==> !Blocks(w[m], z);
    var r := Turn(w, dir, zone, true);
    assert r.1 == PressOf(z.key) + CascadeLog(rs, z);
    forall m | m in w
      ensures r.0[m] == w[zone := z.(pressed := true)][m]
    {
      if m != zone {
        assert !w[m].pressed || m !in ms;
      }
    }
    assert r.0 == w[zone := z.(pressed := true)];
  }

  /** The first frame of the example: A is pressed, and B, outranked by A, is not. */
  lemma FirstFrame(a: InputZone, b: InputZone, w: map<InputZone, ZoneRecord>)
    requires a != b && w == map[a := ExampleA(), b := ExampleB()]
    ensures Closed(w, map[1 := [a, b]])
    ensures Run(w, map[1 := [a, b]], [a, b], [20000, 20000]) == (w[a := ExampleA().(pressed := true)], [Press('w' as int)])
  {
    var dir := map[1 := [a, b]];
    assert Closed(w, dir) by {
      forall id: Option<int>, m | m in DirMembers(dir, id)
        ensures m in w
      {
      }
    }
    RunTwo(w, dir, a, b, 20000, 20000);
    QuietPress(w, dir, a);
    var s1 := Turn(w, dir, a, true);
    assert Blocks(s1.0[a], s1.0[b]);
    assert Turn(s1.0, dir, b, true) == (s1.0, []);
  }

  /** The second frame: A, no longer triggered, is released, and then B is pressed. */
  lemma SecondFrame(a: InputZone, b: InputZone, w: map<InputZone, ZoneRecord>)
    requires a != b && w == map[a := ExampleA(), b := ExampleB()]
    ensures Closed(w[a := ExampleA().(pressed := true)], map[1 := [a, b]])
    ensures Run(w[a := ExampleA().(pressed := true)], map[1 := [a, b]], [a, b], [0, 20000])
      == (w[b := ExampleB().(pressed := true)], [Release('w' as int), Press('s' as int)])
  {
    var dir := map[1 := [a, b]];
    var w1 := w[a := ExampleA().(pressed := true)];
    assert Closed(w1, dir) by {
      forall id: Option<int>, m | m in DirMembers(dir, id)
        ensures m in w1
      {
      }
    }
    RunTwo(w1, dir, a, b, 0, 20000);
    assert w1[a := ExampleA()] == w;
    assert Turn(w1, dir, a, false) == (w, [Release('w' as int)]);
    QuietPress(w, dir, b);
    assert !Triggered(0, w1[a].inverted) && Triggered(20000, w[b].inverted);
    assert [Release('w' as int)] + PressOf(w[b].key) == [Release('w' as int), Press('s' as int)];
  }

  /**
   * Two frames of `test_zones` over A then B, both in group 1. In the first
   * both are triggered: A is pressed and B, outranked by A, stays released.
   * In the second only B is: A is released and then B pressed.
   */
  lemma TwoFrames(a: InputZone, b: InputZone, w: map<InputZone, ZoneRecord>)
    requires a != b && w == map[a := ExampleA(), b := ExampleB()]
    ensures Closed(w, map[1 := [a, b]])
    ensures var f1 := Run(w, map[1 := [a, b]], [a, b], [20000, 20000]);
      && f1.1 == [Press('w' as int)] && f1.0[a].pressed && !f1.0[b].pressed
      && Closed(f1.0, map[1 := [a, b]])
      && var f2 := Run(f1.0, map[1 := [a, b]], [a, b], [0, 20000]);
      && f2.1 == [Release('w' as int), Press('s' as int)] && !f2.0[a].pressed && f2.0[b].pressed
  {
    FirstFrame(a, b, w);
    SecondFrame(a, b, w);
  }
}
