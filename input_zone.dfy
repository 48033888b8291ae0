/**
 * A rectangular trigger zone (input_zone.py): its pixel bounds, the key it
 * actuates, the inversion flag, the optional group id, the priority inside
 * that group and the live pressed state.
 */
module InputZones {
  import opened Wrappers

  /** Pixel bounds of a zone; nothing forces x1 < x2 or y1 < y2. */
  datatype Rect = Rect(x1: int, y1: int, x2: int, y2: int) {
    function Width(): int { x2 - x1 }
    function Height(): int { y2 - y1 }

    /** Pointer hit test used by every editor command: strict on all four sides, so a zone less than two pixels wide or high is never hit. */
    predicate Contains(x: int, y: int)
      ensures Contains(x, y) ==> Width() >= 2 && Height() >= 2
    {
      x1 < x < x2 && y1 < y < y2
    }
  }

  /** The bounds after `set_position(x, y)`: the origin moves to (x, y), the size is kept. */
  function MovedTo(r: Rect, x: int, y: int): (m: Rect)
    ensures m.x1 == x && m.y1 == y
    ensures m.Width() == r.Width() && m.Height() == r.Height()
  {
    Rect(x, y, r.x2 + (x - r.x1), r.y2 + (y - r.y1))
  }

  /** The bounds after `set_size(w, h)`: the origin is kept, the size becomes (w, h). */
  function Resized(r: Rect, w: int, h: int): (m: Rect)
    ensures m.x1 == r.x1 && m.y1 == r.y1
    ensures m.Width() == w && m.Height() == h
  {
    Rect(r.x1, r.y1, r.x1 + w, r.y1 + h)
  }

  /** Moving twice to the same place is the same as moving once. */
  lemma MovedToIdempotent(r: Rect, x: int, y: int)
    ensures MovedTo(MovedTo(r, x, y), x, y) == MovedTo(r, x, y)
  {
  }

  /** Moving only translates: a point is inside the moved zone iff its translate is inside the old one. */
  lemma {:induction false} MovedToTranslatesHits(r: Rect, x: int, y: int, px: int, py: int)
    ensures MovedTo(r, x, y).Contains(px, py) <==> r.Contains(px - (x - r.x1), py - (y - r.y1))
  {
    var m := MovedTo(r, x, y);
    assert m.x2 == r.x2 + (x - r.x1) && m.y2 == r.y2 + (y - r.y1);
  }

  /**
   * The attribute dictionary of a zone (`zone.__dict__`), field for field;
   * `key` is the code point of the one-character key string, if any.
   */
  datatype ZoneRecord = ZoneRecord(
    x1: int, y1: int, x2: int, y2: int,
    key: Option<int>, inverted: bool, group: Option<int>, priority: int,
    pressed: bool)
  {
    function Bounds(): Rect { Rect(x1, y1, x2, y2) }
  }

  class InputZone {
    var x1: int
    var y1: int
    var x2: int
    var y2: int
    var key: Option<int>
    var inverted: bool
    var group: Option<int>
    var priority: int
    var pressed: bool

    /** `InputZone(x1, y1, x2, y2, key=…, inverted=…, group=None, priority=0)`: never pressed at birth. */
    constructor (x1: int, y1: int, x2: int, y2: int, key: Option<int>, inverted: bool,
                 group: Option<int>, priority: int)
      ensures Record() == ZoneRecord(x1, y1, x2, y2, key, inverted, group, priority, false)
    {
      this.x1, this.y1, this.x2, this.y2 := x1, y1, x2, y2;
      this.key := key;
      this.inverted := inverted;
      this.group := group;
      this.priority := priority;
      this.pressed := false;
    }

    function Bounds(): Rect
      reads this
    {
      Rect(x1, y1, x2, y2)
    }

    /** The zone's attributes as a value. */
    function Record(): ZoneRecord
      reads this
    {
      ZoneRecord(x1, y1, x2, y2, key, inverted, group, priority, pressed)
    }

    function GetW(): int
      reads this
    {
      x2 - x1
    }

    function GetH(): int
      reads this
    {
      y2 - y1
    }

    /** Keeps the origin and sets the far corner so the zone is w by h; no positivity check. */
    method SetSize(w: int, h: int)
      modifies this`x2, this`y2
      ensures Bounds() == Resized(old(Bounds()), w, h)
      ensures x1 == old(x1) && y1 == old(y1)
      ensures GetW() == w && GetH() == h
    {
      x2 := x1 + w;
      y2 := y1 + h;
    }

    /** Translates the zone so that its origin is (x, y); width and height are kept. */
    method SetPosition(x: int, y: int)
      modifies this`x1, this`y1, this`x2, this`y2
      ensures Bounds() == MovedTo(old(Bounds()), x, y)
      ensures x1 == x && y1 == y
      ensures GetW() == old(GetW()) && GetH() == old(GetH())
    {
      var difX := x - x1;
      var difY := y - y1;
      x1 := x1 + difX;
      y1 := y1 + difY;
      x2 := x2 + difX;
      y2 := y2 + difY;
    }
  }

  /** The records of a zone list, in list order. */
  function Records(zs: seq<InputZone>): (rs: seq<ZoneRecord>)
    reads zs
    ensures |rs| == |zs|
    ensures forall i :: 0 <= i < |zs| ==> rs[i] == zs[i].Record()
  {
    if zs == [] then [] else [zs[0].Record()] + Records(zs[1..])
  }

  /** When only the i-th zone's record differs from `before`, so does the list's. */
  lemma RecordsAfterWrite(zs: seq<InputZone>, i: nat, before: seq<ZoneRecord>)
    requires i < |zs| == |before|
    requires forall k :: 0 <= k < |zs| && k != i ==> zs[k].Record() == before[k]
    ensures Records(zs) == before[i := zs[i].Record()]
  {
  }
}
