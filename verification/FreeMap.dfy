/**
 The sector free map: an in-memory bitmap and the copy of it kept in the free-map
 file.  Writing that file can fail, and then the allocation is undone.
 */
module FreeMaps {

  import opened Options
  import opened Bitmaps

  class FreeMap {

    const used: Bitmap
    // whether the free-map file is open yet, so that changes are written to it
    var fileOpen: bool
    // the copy of the map in that file
    ghost var persisted: seq<bool>

    ghost predicate Valid()
      reads this, used, used.words
    {
      used.Valid()
    }

    /** Sectors 0 and 1 hold the inodes of the free map and of the root directory. */
    constructor (sectors: nat)
      requires sectors >= 2
      ensures Valid() && fresh(used) && fresh(used.words) && !fileOpen
      ensures used.bits == seq(sectors, i => i < 2)
    {
      var map_ := new Bitmap(sectors);
      map_.Set(0, true);
      map_.Set(1, true);
      used := map_;
      fileOpen := false;
      persisted := [];
    }

    /** The end of free_map_create(): the map's file is written, and every later change is written to it. */
    method Create()
      requires Valid()
      modifies this
      ensures Valid() && fileOpen && persisted == used.bits
    {
      persisted := used.bits;
      fileOpen := true;
    }

    /**
     Takes the lowest run of `cnt` free sectors.  `writeOk` says whether writing the
     map to its file succeeds; if it does not, the map is left as it was.
     */
    method Allocate(cnt: nat, writeOk: bool) returns (r: Option<nat>)
      requires Valid()
      modifies this`persisted, used`bits, used.words
      ensures Valid()
      ensures r.Some? ==>
        && IsFirstFit(old(used.bits), 0, cnt, false, r)
        && used.bits == WithRun(old(used.bits), r.value, cnt, true)
        && (fileOpen ==> persisted == used.bits)
      ensures r.None? ==> used.bits == old(used.bits)
      ensures r.None? <==> (fileOpen && !writeOk) || IsFirstFit(old(used.bits), 0, cnt, false, None)
    {
      r := used.ScanAndFlip(0, cnt, false);
      if r.Some? && fileOpen {
        if writeOk {
          persisted := used.bits;
        } else {
          used.SetMultiple(r.value, cnt, false);
          assert used.bits == old(used.bits);
          persisted := *;
          r := None;
        }
      }
    }

    /** Makes `cnt` used sectors free again. */
    method Release(sector: nat, cnt: nat, writeOk: bool)
      requires Valid() && AllAre(used.bits, sector, cnt, true)
      modifies this`persisted, used`bits, used.words
      ensures Valid()
      ensures used.bits == WithRun(old(used.bits), sector, cnt, false)
      ensures writeOk ==> persisted == used.bits
    {
      used.SetMultiple(sector, cnt, false);
      if writeOk {
        persisted := used.bits;
      } else {
        persisted := *;
      }
    }
  }
}
