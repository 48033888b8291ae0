/**
 * Serialisation of the zone list (config/save_data.py) and the record-to-zone
 * decoding used when a save file is loaded (config/save_manager.py).
 */
module Config {
  import opened Wrappers
  import opened InputZones

  /** The one key of the save dictionary. */
  const ZonesKey: string := "zones"

  class SaveData {
    var zones: seq<InputZone>

    constructor (zones: seq<InputZone>)
      ensures this.zones == zones
    {
      this.zones := zones;
    }

    /**
     * `to_dict`: a dictionary whose only key is "zones", holding one record per
     * zone in list order, each with every attribute (pressed included).
     * Nothing is modified.
     */
    method ToDict() returns (saveDict: map<string, seq<ZoneRecord>>)
      ensures saveDict.Keys == {ZonesKey}
      ensures |saveDict[ZonesKey]| == |zones|
      ensures forall i :: 0 <= i < |zones| ==> saveDict[ZonesKey][i] == zones[i].Record()
    {
      var zonesDictList: seq<ZoneRecord> := [];
      for i := 0 to |zones|
        invariant |zonesDictList| == i
        invariant forall k :: 0 <= k < i ==> zonesDictList[k] == zones[k].Record()
      {
        zonesDictList := zonesDictList + [zones[i].Record()];
      }
      saveDict := map[ZonesKey := zonesDictList];
    }
  }

  /**
   * Decoding one saved record as the loader does: the bounds, key, inversion,
   * group and priority are taken from the record; `pressed` is not read.
   */
  method DecodeZone(r: ZoneRecord) returns (z: InputZone)
    ensures fresh(z)
    ensures z.Record() == r.(pressed := false)
  {
    z := new InputZone(r.x1, r.y1, r.x2, r.y2, r.key, r.inverted, r.group, r.priority);
  }

  /** The attributes of loaded zones: the saved records with `pressed` cleared. */
  function Decoded(rs: seq<ZoneRecord>): seq<ZoneRecord> {
    seq(|rs|, i requires 0 <= i < |rs| => rs[i].(pressed := false))
  }

  /** The loader's zone list: one fresh zone per record, in record order. */
  method DecodeZones(rs: seq<ZoneRecord>) returns (zs: seq<InputZone>)
    ensures |zs| == |rs|
    ensures forall i :: 0 <= i < |zs| ==> fresh(zs[i])
    ensures forall i, j :: 0 <= i < j < |zs| ==> zs[i] != zs[j]
    ensures forall i :: 0 <= i < |rs| ==> zs[i].Record() == rs[i].(pressed := false)
  {
    zs := [];
    for i := 0 to |rs|
      invariant |zs| == i
      invariant forall k :: 0 <= k < i ==> fresh(zs[k])
      invariant forall k, l :: 0 <= k < l < i ==> zs[k] != zs[l]
      invariant forall k :: 0 <= k < i ==> zs[k].Record() == rs[k].(pressed := false)
    {
      var z := DecodeZone(rs[i]);
      zs := zs + [z];
    }
  }

  /**
   * Round trip: saving a zone list and decoding its records rebuilds zones
   * whose attributes equal the originals except that none is pressed.
   */
  method SaveThenLoad(data: SaveData) returns (loaded: seq<InputZone>)
    ensures |loaded| == |data.zones|
    ensures forall i :: 0 <= i < |loaded| ==> fresh(loaded[i])
    ensures forall i :: 0 <= i < |loaded| ==> loaded[i].Record() == data.zones[i].Record().(pressed := false)
  {
    var d := data.ToDict();
    loaded := DecodeZones(d[ZonesKey]);
  }
}
