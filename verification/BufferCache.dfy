/**
 The write-back buffer cache between the file system and its block device:
 64 slots, looked up linearly and evicted by the clock algorithm.

 Its abstract meaning is `contents`, one block per device sector.  Clients see
 only `contents`; the slots, the clock hand and the device stay behind Valid().
 */
module BufferCache {

  import opened Options
  import opened Blocks
  import opened ClockRule

  const CACHE_BLOCKS: nat := 64

  datatype Slot = Slot(sector: nat, data: Block, valid: bool, dirty: bool, recentlyUsed: bool)

  /** Valid slots name sectors of the device, and no sector is held twice. */
  ghost predicate WellFormed(slots: seq<Slot>, deviceSize: nat) {
    && |slots| == CACHE_BLOCKS
    && (forall i :: 0 <= i < |slots| && slots[i].valid ==> slots[i].sector < deviceSize)
    && (forall i, j :: 0 <= i < j < |slots| && slots[i].valid && slots[j].valid ==> slots[i].sector != slots[j].sector)
  }

  ghost predicate Holds(slot: Slot, s: nat) {
    slot.valid && slot.sector == s
  }

  ghost predicate Resident(slots: seq<Slot>, s: nat) {
    exists i :: 0 <= i < |slots| && Holds(slots[i], s)
  }

  ghost predicate ResidentDirty(slots: seq<Slot>, s: nat) {
    exists i :: 0 <= i < |slots| && Holds(slots[i], s) && slots[i].dirty
  }

  /**
   `contents` is what the slots and the device mean together: a valid slot speaks
   for its sector, and the device may differ only where a dirty valid slot covers it.
   */
  ghost predicate Represents(slots: seq<Slot>, disk: seq<Block>, contents: seq<Block>): (r: bool)
    ensures r ==> |contents| == |disk|
  {
    && |contents| == |disk|
    && WellFormed(slots, |disk|)
    && (forall i :: 0 <= i < |slots| && slots[i].valid ==> contents[slots[i].sector] == slots[i].data)
    && (forall s {:trigger ResidentDirty(slots, s)} :: 0 <= s < |disk| && contents[s] != disk[s] ==>
         ResidentDirty(slots, s))
  }

  /** The meaning is a function of the concrete state: there is only one. */
  lemma RepresentsIsFunctional(slots: seq<Slot>, disk: seq<Block>, c1: seq<Block>, c2: seq<Block>)
    requires Represents(slots, disk, c1) && Represents(slots, disk, c2)
    ensures c1 == c2
  {
    forall s | 0 <= s < |disk|
      ensures c1[s] == c2[s]
    {
      if ResidentDirty(slots, s) {
        var i :| 0 <= i < |slots| && Holds(slots[i], s) && slots[i].dirty;
      } else {
        assert c1[s] == disk[s] == c2[s];
      }
    }
  }

  /** Where the device lags behind, a dirty slot has the block. */
  lemma DirtyHolder(slots: seq<Slot>, disk: seq<Block>, contents: seq<Block>, s: nat) returns (i: nat)
    requires Represents(slots, disk, contents) && s < |disk| && contents[s] != disk[s]
    ensures i < |slots| && Holds(slots[i], s) && slots[i].dirty
  {
    assert ResidentDirty(slots, s);
    i :| 0 <= i < |slots| && Holds(slots[i], s) && slots[i].dirty;
  }

  // ---------- The clock, stated without the loop ----------

  ghost predicate Spared(slot: Slot) {
    slot.valid && slot.recentlyUsed
  }

  function At(hand: nat, k: nat): (i: nat)
    ensures i < CACHE_BLOCKS
  {
    (hand + k) % CACHE_BLOCKS
  }

  /** How far slot `i` lies ahead of the hand. */
  function Ahead(hand: nat, i: nat): (k: nat)
    requires hand < CACHE_BLOCKS && i < CACHE_BLOCKS
    ensures k < CACHE_BLOCKS && At(hand, k) == i
  {
    if hand <= i then i - hand else i + CACHE_BLOCKS - hand
  }

  /**
   The victim lies `k` slots ahead of the hand: it is the first slot in cyclic
   order that is invalid or not recently used; if every slot was spared the hand
   comes back to where it started.
   */
  ghost predicate VictimAhead(slots: seq<Slot>, hand: nat, k: nat)
    requires |slots| == CACHE_BLOCKS
  {
    && k <= CACHE_BLOCKS
    && (forall j :: 0 <= j < k ==> Spared(slots[At(hand, j)]))
    && (k < CACHE_BLOCKS ==> !Spared(slots[At(hand, k)]))
  }

  lemma VictimIsUnique(slots: seq<Slot>, hand: nat, k1: nat, k2: nat)
    requires |slots| == CACHE_BLOCKS
    requires VictimAhead(slots, hand, k1) && VictimAhead(slots, hand, k2)
    ensures k1 == k2
  {
  }

  function Unused(slot: Slot): Slot {
    slot.(recentlyUsed := false)
  }

  /** The slots after the hand has passed `k` of them. */
  function Swept(slots: seq<Slot>, hand: nat, k: nat): (r: seq<Slot>)
    requires |slots| == CACHE_BLOCKS && hand < CACHE_BLOCKS
    ensures |r| == CACHE_BLOCKS
  {
    seq(CACHE_BLOCKS, i requires 0 <= i < CACHE_BLOCKS =>
      if Ahead(hand, i) < k then Unused(slots[i]) else slots[i])
  }

  lemma SweptNext(slots: seq<Slot>, hand: nat, k: nat)
    requires |slots| == CACHE_BLOCKS && hand < CACHE_BLOCKS && k < CACHE_BLOCKS
    ensures Swept(slots, hand, k)[At(hand, k)] == slots[At(hand, k)]
    ensures Swept(slots, hand, k + 1) == Swept(slots, hand, k)[At(hand, k) := Unused(slots[At(hand, k)])]
  {
    assert Ahead(hand, At(hand, k)) == k;
    assert forall i :: 0 <= i < CACHE_BLOCKS && Ahead(hand, i) == k ==> i == At(hand, k);
  }

  function Evicted(slot: Slot): Slot {
    if slot.valid then slot.(valid := false, dirty := false) else slot
  }

  /** Clearing a use bit does not change what the cache means. */
  lemma UnusedRepresents(slots: seq<Slot>, h: nat, disk: seq<Block>, contents: seq<Block>)
    requires h < CACHE_BLOCKS && Represents(slots, disk, contents)
    ensures Represents(slots[h := Unused(slots[h])], disk, contents)
  {
    var r := slots[h := Unused(slots[h])];
    forall s | 0 <= s < |disk| && contents[s] != disk[s]
      ensures ResidentDirty(r, s)
    {
      var i := DirtyHolder(slots, disk, contents, s);
      assert Holds(r[i], s) && r[i].dirty;
    }
  }

  /** Writing a dirty victim back and dropping it does not change what the cache means. */
  lemma EvictRepresents(slots: seq<Slot>, v: nat, disk: seq<Block>, contents: seq<Block>)
    requires v < CACHE_BLOCKS && Represents(slots, disk, contents)
    ensures Represents(slots[v := Evicted(slots[v])], WrittenBack(slots[v], disk), contents)
  {
    var r, d := slots[v := Evicted(slots[v])], WrittenBack(slots[v], disk);
    forall s | 0 <= s < |d| && contents[s] != d[s]
      ensures ResidentDirty(r, s)
    {
      assert contents[s] != disk[s];
      var i := DirtyHolder(slots, disk, contents, s);
      assert i != v;
      assert Holds(r[i], s) && r[i].dirty;
    }
  }

  /** The device after a slot's block has been written back if it needed to be. */
  function WrittenBack(slot: Slot, disk: seq<Block>): (r: seq<Block>)
    ensures |r| == |disk|
  {
    if slot.valid && slot.dirty && slot.sector < |disk| then disk[slot.sector := slot.data] else disk
  }

  /** Between two states of the device, sectors changed only to what the contents say. */
  ghost predicate CaughtUp(disk0: seq<Block>, disk: seq<Block>, contents: seq<Block>) {
    && |disk0| == |disk| == |contents|
    && forall s :: 0 <= s < |disk| ==> disk[s] == disk0[s] || disk[s] == contents[s]
  }

  lemma WriteBackCatchesUp(slots: seq<Slot>, i: nat, disk: seq<Block>, contents: seq<Block>)
    requires Represents(slots, disk, contents) && i < |slots|
    ensures CaughtUp(disk, WrittenBack(slots[i], disk), contents)
  {
  }

  /** Loading a clean copy of an absent sector into an invalid slot changes nothing. */
  lemma LoadRepresents(slots: seq<Slot>, v: nat, slot: Slot, disk: seq<Block>, contents: seq<Block>)
    requires v < CACHE_BLOCKS && Represents(slots, disk, contents) && !slots[v].valid
    requires slot.valid && slot.sector < |disk| && !Resident(slots, slot.sector)
    requires !slot.dirty ==> slot.data == contents[slot.sector]
    ensures Represents(slots[v := slot], disk, contents[slot.sector := slot.data])
  {
    var r, c := slots[v := slot], contents[slot.sector := slot.data];
    assert forall i :: 0 <= i < |slots| ==> !Holds(slots[i], slot.sector);
    forall s | 0 <= s < |disk| && c[s] != disk[s]
      ensures ResidentDirty(r, s)
    {
      if s == slot.sector && slot.dirty {
        assert Holds(r[v], s) && r[v].dirty;
      } else {
        assert contents[s] != disk[s];
        var i := DirtyHolder(slots, disk, contents, s);
        assert Holds(r[i], s) && r[i].dirty;
      }
    }
  }

  /** Touching, or overwriting and dirtying, the slot that already holds a sector. */
  lemma HitRepresents(slots: seq<Slot>, h: nat, slot: Slot, disk: seq<Block>, contents: seq<Block>)
    requires h < CACHE_BLOCKS && Represents(slots, disk, contents) && slots[h].valid
    requires slot.valid && slot.sector == slots[h].sector
    requires slot.dirty || (slot.data == slots[h].data && !slots[h].dirty)
    ensures Represents(slots[h := slot], disk, contents[slot.sector := slot.data])
  {
    var r, c := slots[h := slot], contents[slot.sector := slot.data];
    forall s | 0 <= s < |disk| && c[s] != disk[s]
      ensures ResidentDirty(r, s)
    {
      if s == slot.sector && slot.dirty {
        assert Holds(r[h], s) && r[h].dirty;
      } else {
        assert contents[s] != disk[s];
        var i := DirtyHolder(slots, disk, contents, s);
        assert Holds(r[i], s) && r[i].dirty;
      }
    }
  }

  /** Cleaning a slot after writing it back changes nothing. */
  lemma CleanRepresents(slots: seq<Slot>, v: nat, disk: seq<Block>, contents: seq<Block>)
    requires v < CACHE_BLOCKS && Represents(slots, disk, contents) && slots[v].valid && slots[v].dirty
    ensures Represents(slots[v := slots[v].(dirty := false)], WrittenBack(slots[v], disk), contents)
  {
    var r, d := slots[v := slots[v].(dirty := false)], WrittenBack(slots[v], disk);
    forall s | 0 <= s < |d| && contents[s] != d[s]
      ensures ResidentDirty(r, s)
    {
      assert contents[s] != disk[s];
      var i := DirtyHolder(slots, disk, contents, s);
      assert i != v;
      assert Holds(r[i], s) && r[i].dirty;
    }
  }

  /** A sector no slot holds is on the device as it should be. */
  lemma AbsentIsOnDisk(slots: seq<Slot>, disk: seq<Block>, contents: seq<Block>, s: nat)
    requires Represents(slots, disk, contents) && s < |disk| && !Resident(slots, s)
    ensures disk[s] == contents[s]
  {
    assert !ResidentDirty(slots, s);
  }

  /** With no dirty slot left, the device holds everything. */
  lemma NothingDirty(slots: seq<Slot>, disk: seq<Block>, contents: seq<Block>)
    requires Represents(slots, disk, contents)
    requires forall i :: 0 <= i < |slots| && slots[i].valid ==> !slots[i].dirty
    ensures disk == contents
  {
    forall s | 0 <= s < |disk|
      ensures disk[s] == contents[s]
    {
      assert !ResidentDirty(slots, s);
    }
  }

  /** Every block that would be dropped unwritten is on the device already. */
  ghost predicate NothingToLose(slots: seq<Slot>, disk: seq<Block>) {
    forall i :: 0 <= i < |slots| && slots[i].valid && slots[i].dirty ==>
      slots[i].sector < |disk| && disk[slots[i].sector] == slots[i].data
  }

  lemma LosesNothingIff(slots: seq<Slot>, disk: seq<Block>, contents: seq<Block>)
    requires Represents(slots, disk, contents)
    ensures disk == contents <==> NothingToLose(slots, disk)
  {
    if NothingToLose(slots, disk) {
      forall s | 0 <= s < |disk|
        ensures disk[s] == contents[s]
      {
        if contents[s] != disk[s] {
          var i := DirtyHolder(slots, disk, contents, s);
        }
      }
    }
  }

  lemma VictimFound(slots: seq<Slot>, hand: nat, k: nat)
    requires |slots| == CACHE_BLOCKS && hand < CACHE_BLOCKS && k <= CACHE_BLOCKS
    requires forall j :: 0 <= j < k ==> Spared(slots[At(hand, j)])
    requires !Spared(Swept(slots, hand, k)[At(hand, k)])
    ensures VictimAhead(slots, hand, k)
  {
  }

  lemma StillSpared(slots: seq<Slot>, hand: nat, k: nat)
    requires |slots| == CACHE_BLOCKS && hand < CACHE_BLOCKS && k <= CACHE_BLOCKS
    requires Spared(Swept(slots, hand, k)[At(hand, k)])
    ensures k < CACHE_BLOCKS && Spared(slots[At(hand, k)])
  {
    assert Ahead(hand, At(hand, CACHE_BLOCKS)) == 0;
  }

  lemma SweptNone(slots: seq<Slot>, hand: nat)
    requires |slots| == CACHE_BLOCKS && hand < CACHE_BLOCKS
    ensures Swept(slots, hand, 0) == slots && At(hand, 0) == hand
  {
  }

  lemma AtNext(hand: nat, k: nat)
    ensures At(At(hand, k), 1) == At(hand, k + 1)
  {
  }

  /** The use bit plays no part in writing a slot back. */
  lemma SweptWrittenBack(slots: seq<Slot>, hand: nat, k: nat, i: nat, disk: seq<Block>)
    requires |slots| == CACHE_BLOCKS && hand < CACHE_BLOCKS && i < CACHE_BLOCKS
    ensures WrittenBack(Swept(slots, hand, k)[i], disk) == WrittenBack(slots[i], disk)
  {
  }

  // ---------- What the clock sees of the slots ----------

  function LineOf(slot: Slot): Option<Line> {
    if slot.valid then Some(Line(slot.sector, slot.recentlyUsed)) else None
  }

  function Lines(slots: seq<Slot>): (r: seq<Option<Line>>)
    ensures |r| == |slots|
    ensures forall i :: 0 <= i < |r| ==> r[i] == LineOf(slots[i])
  {
    seq(|slots|, i requires 0 <= i < |slots| => LineOf(slots[i]))
  }

  /** One spared slot: what the sweep does to it is what the clock does to its line. */
  lemma SweptLines(slots: seq<Slot>, hand: nat, j: nat)
    requires |slots| == CACHE_BLOCKS && hand < CACHE_BLOCKS && j < CACHE_BLOCKS && Spared(slots[At(hand, j)])
    ensures
      var lines, i := Lines(Swept(slots, hand, j)), At(hand, j);
      Used(lines[i]) && Lines(Swept(slots, hand, j + 1)) == lines[i := WithUse(lines[i], false)]
  {
    SweptNext(slots, hand, j);
    hide Swept, At;
    var now, next, i := Swept(slots, hand, j), Swept(slots, hand, j + 1), At(hand, j);
    assert Lines(next) == Lines(now)[i := WithUse(Lines(now)[i], false)];
  }

  lemma NextHand(hand: nat, j: nat)
    ensures At(hand, j + 1) == if At(hand, j) + 1 == 64 then 0 else At(hand, j) + 1
  {
  }

  /** The hand going round, line by line, leaves the lines swept and stops at the victim. */
  lemma {:induction false} TurnIsSweep(slots: seq<Slot>, hand: nat, j: nat, k: nat)
    requires |slots| == CACHE_BLOCKS && hand < CACHE_BLOCKS && j <= k && VictimAhead(slots, hand, k)
    ensures Turn(Lines(Swept(slots, hand, j)), At(hand, j), 64 - j) == (Lines(Swept(slots, hand, k)), At(hand, k))
    decreases k - j
  {
    if j < k {
      TurnIsSweep(slots, hand, j + 1, k);
      NextHand(hand, j);
      assert Spared(slots[At(hand, j)]);
      hide Swept, VictimAhead, At, Lines, Used, WithUse;
      SweptLines(slots, hand, j);
    } else if k < CACHE_BLOCKS {
      SweptNext(slots, hand, k);
      hide Swept;
    }
  }

  /** The slot that holds the sector has become `slot`, and no other has changed. */
  ghost predicate HolderBecomes(before: seq<Slot>, after: seq<Slot>, sector: nat, slot: Slot) {
    && |after| == |before|
    && forall i :: 0 <= i < |after| ==> after[i] == if Holds(before[i], sector) then slot else before[i]
  }

  /** The clock rule has been applied, and its victim's place is taken by `slot`. */
  ghost predicate VictimBecomes(before: seq<Slot>, hand0: nat, after: seq<Slot>, hand: nat, slot: Slot) {
    && |before| == CACHE_BLOCKS && hand0 < CACHE_BLOCKS && hand < CACHE_BLOCKS
    && exists k :: VictimAhead(before, hand0, k) && hand == At(hand0, k)
                   && after == Swept(before, hand0, k)[hand := slot]
  }

  /** After an access the sector is held by a slot that counts as used. */
  ghost predicate HeldAsUsed(slots: seq<Slot>, sector: nat) {
    && Resident(slots, sector)
    && forall i :: 0 <= i < |slots| && Holds(slots[i], sector) ==> slots[i].recentlyUsed
  }

  lemma OnlyHolder(slots: seq<Slot>, deviceSize: nat, i: nat, slot: Slot)
    requires WellFormed(slots, deviceSize) && i < |slots| && slots[i].valid
    ensures HolderBecomes(slots, slots[i := slot], slots[i].sector, slot)
  {
  }

  /** Reading or writing a sector that a slot holds. */
  lemma HitIsAccess(slots: seq<Slot>, deviceSize: nat, hand: nat, hits: nat, misses: nat, i: nat, slot: Slot)
    requires WellFormed(slots, deviceSize) && i < |slots| && slots[i].valid
    requires LineOf(slot) == Some(Line(slots[i].sector, true))
    ensures Clock(Lines(slots[i := slot]), hand, hits + 1, misses) ==
      Accessed(Clock(Lines(slots), hand, hits, misses), slots[i].sector)
    ensures HeldAsUsed(slots[i := slot], slots[i].sector)
  {
    hide Turn;
    var s := slots[i].sector;
    assert forall j :: 0 <= j < |slots| && Has(Lines(slots)[j], s) ==> j == i;
    FindIs(Lines(slots), s, i);
    assert Lines(slots[i := slot]) == Lines(slots)[i := WithUse(Lines(slots)[i], true)];
    assert Holds(slots[i := slot][i], s);
  }

  lemma AbsentLine(slots: seq<Slot>, s: nat)
    requires !Resident(slots, s)
    ensures Find(Lines(slots), s) == |slots|
  {
    assert forall i :: 0 <= i < |slots| ==> !Holds(slots[i], s);
  }

  lemma VictimHolds(before: seq<Slot>, hand0: nat, k: nat, hand: nat, slot: Slot)
    requires |before| == CACHE_BLOCKS && hand0 < CACHE_BLOCKS && hand < CACHE_BLOCKS
    requires !Resident(before, slot.sector) && slot.valid && slot.recentlyUsed
    ensures HeldAsUsed(Swept(before, hand0, k)[hand := slot], slot.sector)
  {
    var swept := Swept(before, hand0, k);
    assert forall i :: 0 <= i < |before| ==> !Holds(before[i], slot.sector);
    assert forall i :: 0 <= i < |swept| ==> !Holds(swept[i], slot.sector);
    assert Holds(swept[hand := slot][hand], slot.sector);
  }

  /** Reading or writing one that no slot holds. */
  lemma MissIsAccess(before: seq<Slot>, hand0: nat, after: seq<Slot>, hand: nat, hits: nat, misses: nat, slot: Slot)
    requires VictimBecomes(before, hand0, after, hand, slot) && !Resident(before, slot.sector)
    requires LineOf(slot) == Some(Line(slot.sector, true))
    ensures Clock(Lines(after), hand, hits, misses + 1) ==
      Accessed(Clock(Lines(before), hand0, hits, misses), slot.sector)
    ensures HeldAsUsed(after, slot.sector)
  {
    hide Turn, Find, Swept, VictimAhead, At, Resident, HeldAsUsed;
    var k :| VictimAhead(before, hand0, k) && hand == At(hand0, k) && after == Swept(before, hand0, k)[hand := slot];
    var swept := Swept(before, hand0, k);
    VictimHolds(before, hand0, k, hand, slot);
    AbsentLine(before, slot.sector);
    SweptNone(before, hand0);
    TurnIsSweep(before, hand0, 0, k);
    assert Lines(after) == Lines(swept)[hand := Some(Line(slot.sector, true))];
  }

  /** What follows for a hit, whether the slot is only touched or overwritten. */
  lemma Hit(slots: seq<Slot>, disk: seq<Block>, contents: seq<Block>, i: nat, slot: Slot)
    requires Represents(slots, disk, contents) && i < CACHE_BLOCKS && slots[i].valid
    requires slot.valid && slot.sector == slots[i].sector
    requires slot.dirty || (slot.data == slots[i].data && !slots[i].dirty)
    ensures WellFormed(slots, |disk|) && slot.sector < |disk| && contents[slot.sector] == slots[i].data
    ensures Represents(slots[i := slot], disk, contents[slot.sector := slot.data])
    ensures slot.data == slots[i].data ==> contents[slot.sector := slot.data] == contents
    ensures HolderBecomes(slots, slots[i := slot], slot.sector, slot)
    ensures CaughtUp(disk, disk, contents)
  {
    HitRepresents(slots, i, slot, disk, contents);
    OnlyHolder(slots, |disk|, i, slot);
  }

  class Cache {

    const slots: array<Slot>
    var hand: nat
    var hits: nat
    var misses: nat

    // the block device underneath
    var disk: seq<Block>

    // what the cache and the device mean together
    ghost var contents: seq<Block>

    ghost predicate Valid()
      reads this, slots
    {
      && slots.Length == CACHE_BLOCKS
      && hand < CACHE_BLOCKS
      && Represents(slots[..], disk, contents)
    }

    /** The cache as the clock alone sees it. */
    ghost function Seen(): Clock
      reads this, slots
    {
      Clock(Lines(slots[..]), hand, hits, misses)
    }

    constructor (device: seq<Block>)
      ensures Valid() && fresh(slots) && Seen() == Fresh()
      ensures contents == device && disk == device
      ensures hand == hits == misses == 0
    {
      slots := new Slot[CACHE_BLOCKS](_ => Slot(0, ZEROS, false, false, false));
      hand, hits, misses := 0, 0, 0;
      disk := device;
      contents := device;
    }

    /** The slot holding `sector`, if any; counts the hit or the miss. */
    method Check(sector: nat) returns (found: bool, idx: nat)
      requires Valid()
      modifies this`hits, this`misses
      ensures Valid()
      ensures found <==> Resident(slots[..], sector)
      ensures found ==> idx < CACHE_BLOCKS && Holds(slots[idx], sector)
      ensures hits == old(hits) + (if found then 1 else 0)
      ensures misses == old(misses) + (if found then 0 else 1)
    {
      idx := 0;
      while idx < CACHE_BLOCKS
        invariant idx <= CACHE_BLOCKS
        invariant hits == old(hits) && misses == old(misses)
        invariant forall i :: 0 <= i < idx ==> !Holds(slots[i], sector)
      {
        if slots[idx].valid {
          if slots[idx].sector == sector {
            hits := hits + 1;
            assert Holds(slots[..][idx], sector);
            return true, idx;
          }
        }
        idx := idx + 1;
      }
      misses := misses + 1;
      found := false;
    }

    /**
     One turn of the clock.  A spared slot loses its use bit and the hand moves on;
     any other slot is written back if dirty, invalidated and handed out.
     */
    method Tick() returns (done: bool)
      requires Valid()
      modifies this`hand, this`disk, slots
      ensures Valid()
      ensures done <==> !Spared(old(slots[hand]))
      ensures done ==>
        && hand == old(hand)
        && slots[..] == old(slots[..])[hand := Evicted(old(slots[hand]))]
        && disk == WrittenBack(old(slots[hand]), old(disk))
      ensures !done ==>
        && hand == At(old(hand), 1)
        && slots[..] == old(slots[..])[old(hand) := Unused(old(slots[hand]))]
        && disk == old(disk)
    {
      if !slots[hand].valid {
        return true;
      }
      if slots[hand].recentlyUsed {
        UnusedRepresents(slots[..], hand, disk, contents);
        slots[hand] := slots[hand].(recentlyUsed := false);
        assert slots[..] == old(slots[..])[hand := Unused(old(slots[hand]))];
      } else {
        EvictRepresents(slots[..], hand, disk, contents);
        if slots[hand].dirty {
          disk := disk[slots[hand].sector := slots[hand].data];
          slots[hand] := slots[hand].(dirty := false);
        }
        slots[hand] := slots[hand].(valid := false);
        assert slots[..] == old(slots[..])[hand := Evicted(old(slots[hand]))];
        return true;
      }
      hand := hand + 1;
      if hand == CACHE_BLOCKS {
        hand := 0;
      }
      done := false;
    }

    /**
     Frees one slot by the clock algorithm.  The victim, the bits cleared on the
     way and the device write are exactly those of the specification above, and
     the loop body runs `k + 1 <= 65` times.
     */
    method GetBlock() returns (idx: nat, ghost k: nat, ghost iterations: nat)
      requires Valid()
      modifies this`hand, this`disk, slots
      ensures Valid()
      ensures VictimAhead(old(slots[..]), old(hand), k)
      ensures idx == hand == At(old(hand), k) && idx < CACHE_BLOCKS
      ensures iterations == k + 1 <= CACHE_BLOCKS + 1
      ensures var swept := Swept(old(slots[..]), old(hand), k);
              slots[..] == swept[idx := Evicted(swept[idx])]
      ensures disk == WrittenBack(old(slots[..])[idx], old(disk))
    {
      hide Represents, Swept, At, Evicted, Unused, VictimAhead, WrittenBack, Spared;
      ghost var slots0, hand0 := slots[..], hand;
      k, iterations := 0, 0;
      SweptNone(slots0, hand0);
      while true
        invariant Valid()
        invariant k <= CACHE_BLOCKS && iterations == k
        invariant hand == At(hand0, k)
        invariant disk == old(disk)
        invariant forall j :: 0 <= j < k ==> Spared(slots0[At(hand0, j)])
        invariant slots[..] == Swept(slots0, hand0, k)
        decreases CACHE_BLOCKS - k
      {
        iterations := iterations + 1;
        SweptWrittenBack(slots0, hand0, k, hand, disk);
        var done := Tick();
        if done {
          VictimFound(slots0, hand0, k);
          return hand, k, iterations;
        }
        StillSpared(slots0, hand0, k);
        SweptNext(slots0, hand0, k);
        AtNext(hand0, k);
        k := k + 1;
      }
    }

    /** Makes room for an absent sector: its slot is invalid and nothing has changed meaning. */
    method Vacate(ghost sector: nat) returns (idx: nat, ghost k: nat)
      requires Valid() && !Resident(slots[..], sector)
      modifies this`hand, this`disk, slots
      ensures Valid() && !Resident(slots[..], sector)
      ensures VictimAhead(old(slots[..]), old(hand), k)
      ensures idx == hand == At(old(hand), k) && !slots[idx].valid
      ensures var swept := Swept(old(slots[..]), old(hand), k);
              slots[..] == swept[idx := Evicted(swept[idx])]
      ensures CaughtUp(old(disk), disk, contents)
    {
      ghost var before, hand0, disk0 := slots[..], hand, disk;
      ghost var iterations;
      idx, k, iterations := GetBlock();
      WriteBackCatchesUp(before, idx, disk0, contents);
      forall i | 0 <= i < |slots[..]|
        ensures !Holds(slots[..][i], sector)
      {
        assert !Holds(before[i], sector);
        assert !Holds(Swept(before, hand0, k)[i], sector);
      }
    }

    /** A block that was not in the cache comes from the device. */
    method ReadMiss(sector: nat) returns (buffer: Block)
      requires Valid() && sector < |contents| && !Resident(slots[..], sector)
      modifies this`hand, this`disk, slots
      ensures Valid() && buffer == contents[sector]
      ensures VictimBecomes(old(slots[..]), old(hand), slots[..], hand, Slot(sector, buffer, true, false, true))
      ensures CaughtUp(old(disk), disk, contents)
    {
      hide VictimAhead, Swept, Evicted, At, CaughtUp, Resident, Represents;
      var idx, k := Vacate(sector);
      ghost var before := slots[..];
      buffer := disk[sector];
      AbsentIsOnDisk(before, disk, contents, sector);
      slots[idx] := Slot(sector, buffer, true, false, true);
      LoadRepresents(before, idx, slots[idx], disk, contents);
      assert slots[..] == before[idx := slots[idx]];
      assert slots[..] == Swept(old(slots[..]), old(hand), k)[idx := slots[idx]];
      assert contents[sector := buffer] == contents;
    }

    method ReadAt(sector: nat) returns (buffer: Block)
      requires Valid() && sector < |contents|
      modifies this`hand, this`hits, this`misses, this`disk, slots
      ensures Valid()
      ensures buffer == contents[sector]
      ensures old(Resident(slots[..], sector)) ==>
        && hits == old(hits) + 1 && misses == old(misses) && hand == old(hand)
        && exists i :: 0 <= i < CACHE_BLOCKS && Holds(old(slots[i]), sector) &&
                       HolderBecomes(old(slots[..]), slots[..], sector, old(slots[i]).(recentlyUsed := true))
      ensures !old(Resident(slots[..], sector)) ==>
        && hits == old(hits) && misses == old(misses) + 1
        && VictimBecomes(old(slots[..]), old(hand), slots[..], hand, Slot(sector, buffer, true, false, true))
      ensures HeldAsUsed(slots[..], sector)
      ensures Seen() == Accessed(old(Seen()), sector)
      ensures CaughtUp(old(disk), disk, old(contents))
    {
      var found, idx := Check(sector);
      ghost var before := slots[..];
      hide Represents, HolderBecomes, VictimBecomes, Resident, HeldAsUsed, Lines, Accessed, CaughtUp;
      if !found {
        buffer := ReadMiss(sector);
        MissIsAccess(before, old(hand), slots[..], hand, hits, old(misses), Slot(sector, buffer, true, false, true));
      } else {
        slots[idx] := slots[idx].(recentlyUsed := true);
        buffer := slots[idx].data;
        assert slots[..] == before[idx := slots[idx]];
        Hit(before, disk, contents, idx, slots[idx]);
        HitIsAccess(before, |disk|, hand, old(hits), misses, idx, slots[idx]);
      }
    }

    method WriteMiss(sector: nat, buffer: Block)
      requires Valid() && sector < |contents| && !Resident(slots[..], sector)
      modifies this`hand, this`disk, this`contents, slots
      ensures Valid() && contents == old(contents)[sector := buffer]
      ensures VictimBecomes(old(slots[..]), old(hand), slots[..], hand, Slot(sector, buffer, true, true, true))
      ensures CaughtUp(old(disk), disk, old(contents))
    {
      hide VictimAhead, Swept, Evicted, At, CaughtUp, Resident, Represents;
      var idx, k := Vacate(sector);
      ghost var before := slots[..];
      slots[idx] := Slot(sector, buffer, true, true, true);
      LoadRepresents(before, idx, slots[idx], disk, contents);
      assert slots[..] == before[idx := slots[idx]];
      assert slots[..] == Swept(old(slots[..]), old(hand), k)[idx := slots[idx]];
      contents := contents[sector := buffer];
    }

    method WriteAt(sector: nat, buffer: Block)
      requires Valid() && sector < |contents|
      modifies this, slots
      ensures Valid()
      ensures contents == old(contents)[sector := buffer]
      ensures old(Resident(slots[..], sector)) ==>
        && hits == old(hits) + 1 && misses == old(misses) && hand == old(hand)
        && HolderBecomes(old(slots[..]), slots[..], sector, Slot(sector, buffer, true, true, true))
      ensures !old(Resident(slots[..], sector)) ==>
        && hits == old(hits) && misses == old(misses) + 1
        && VictimBecomes(old(slots[..]), old(hand), slots[..], hand, Slot(sector, buffer, true, true, true))
      ensures HeldAsUsed(slots[..], sector)
      ensures Seen() == Accessed(old(Seen()), sector)
      ensures CaughtUp(old(disk), disk, old(contents))
    {
      var found, idx := Check(sector);
      ghost var before := slots[..];
      hide Represents, HolderBecomes, VictimBecomes, Resident, HeldAsUsed, Lines, Accessed, CaughtUp;
      if !found {
        WriteMiss(sector, buffer);
        MissIsAccess(before, old(hand), slots[..], hand, hits, old(misses), Slot(sector, buffer, true, true, true));
      } else {
        slots[idx] := slots[idx].(dirty := true, recentlyUsed := true, data := buffer);
        assert slots[..] == before[idx := slots[idx]];
        Hit(before, disk, contents, idx, slots[idx]);
        HitIsAccess(before, |disk|, hand, old(hits), misses, idx, slots[idx]);
        contents := contents[sector := buffer];
      }
    }

    /** Writes every dirty block back: the device then agrees with the contents everywhere. */
    method Flush()
      requires Valid()
      modifies this`disk, slots
      ensures Valid()
      ensures disk == contents
      ensures forall i :: 0 <= i < CACHE_BLOCKS ==>
        slots[i] == if old(slots[i]).valid then old(slots[i]).(dirty := false) else old(slots[i])
      ensures Seen() == old(Seen())
    {
      for i := 0 to CACHE_BLOCKS
        invariant Represents(slots[..], disk, contents)
        invariant forall j :: i <= j < CACHE_BLOCKS ==> slots[j] == old(slots[j])
        invariant forall j :: 0 <= j < i ==>
          slots[j] == if old(slots[j]).valid then old(slots[j]).(dirty := false) else old(slots[j])
      {
        ghost var before := slots[..];
        if slots[i].valid && slots[i].dirty {
          CleanRepresents(before, i, disk, contents);
          disk := disk[slots[i].sector := slots[i].data];
          slots[i] := slots[i].(dirty := false);
        }
        assert slots[..] == before[i := slots[i]];
      }
      NothingDirty(slots[..], disk, contents);
      assert Lines(slots[..]) == Lines(old(slots[..]));
    }

    /**
     The second critical section of a reset: drops every slot unwritten.  What the
     device holds is all that is left, so nothing is lost exactly if every dirty block
     is there already.
     */
    method Invalidate()
      requires Valid()
      modifies this, slots
      ensures Valid()
      ensures disk == old(disk) && contents == old(disk)
      ensures contents == old(contents) <==> old(NothingToLose(slots[..], disk))
      ensures Seen() == Fresh()
      ensures forall s :: !Resident(slots[..], s)
    {
      LosesNothingIff(slots[..], disk, contents);
      hand, misses, hits := 0, 0, 0;
      for i := 0 to CACHE_BLOCKS
        invariant hand == hits == misses == 0 && disk == old(disk)
        invariant forall j :: 0 <= j < i ==> !slots[j].valid
      {
        slots[i] := slots[i].(valid := false);
      }
      contents := disk;
      assert Lines(slots[..]) == Fresh().lines;
    }

    /** Flushes, then empties the cache; the contents survive on the device. */
    method Reset()
      requires Valid()
      modifies this, slots
      ensures Valid()
      ensures contents == old(contents) == disk
      ensures Seen() == Fresh()
      ensures forall s :: !Resident(slots[..], s)
    {
      Flush();
      Invalidate();
    }

    /**
     The lock is free between the two parts of a reset, so other operations can come in
     between.  Every sector is left with what it held at some moment since the last flush
     among them; so what was not written since then is kept.
     */
    method InterruptedReset(ops: seq<Op>) returns (results: seq<Block>)
      requires Valid() && AllInRange(ops, |contents|)
      modifies this, slots
      ensures Valid() && |contents| == old(|contents|)
      ensures Lagging(contents, old(contents), ops)
      ensures forall s :: 0 <= s < |contents| && Settled(ops, s) ==>
        contents[s] == LastWritten(ops, s, old(contents)[s])
    {
      hide Represents, LastWritten, Settled, Lagging, After, NothingToLose;
      Flush();
      ghost var start := contents;
      results := Perform(ops);
      Invalidate();
      forall s | 0 <= s < |contents| && Settled(ops, s)
        ensures contents[s] == LastWritten(ops, s, start[s])
      {
        SettledIsKept(contents, start, ops, s);
      }
    }

    /** But a write that comes in between is lost. */
    method WriteDuringReset(sector: nat, buffer: Block)
      requires Valid() && sector < |contents|
      modifies this, slots
      ensures Valid() && contents == old(contents)
    {
      Flush();
      WriteAt(sector, buffer);
      Invalidate();
    }

    method Do(op: Op) returns (r: Block)
      requires Valid() && InRange(op, |contents|)
      modifies this, slots
      ensures Valid()
      ensures contents == Applied(old(contents), op)
      ensures Seen() == ClockStep(old(Seen()), op)
      ensures op.Read? ==> r == old(contents)[op.sector]
      ensures CaughtUp(old(disk), disk, old(contents))
      ensures Settles(op) ==> disk == old(contents)
    {
      hide Represents, Lines, Accessed, VictimBecomes, HolderBecomes, HeldAsUsed;
      r := ZEROS;
      match op {
        case Read(s) => r := ReadAt(s);
        case Write(s, b) => WriteAt(s, b);
        case Flush => Flush();
        case Reset => Reset();
      }
    }

    /** Performs a whole run of operations, collecting what the reads return. */
    method Perform(ops: seq<Op>) returns (results: seq<Block>)
      requires Valid()
      requires AllInRange(ops, |contents|)
      modifies this, slots
      ensures Valid()
      ensures |results| == |ops|
      ensures forall i :: 0 <= i < |ops| && ops[i].Read? ==>
        results[i] == LastWritten(ops[..i], ops[i].sector, old(contents)[ops[i].sector])
      ensures contents == After(old(contents), ops)
      ensures Seen() == ClockAfter(old(Seen()), ops)
      ensures old(disk == contents) ==> Lagging(disk, old(contents), ops)
    {
      hide Represents, Lagging, After, CaughtUp, Applied, LastWritten, Lines, ClockStep;
      results := [];
      ghost var start, disk0, clock0 := contents, disk, Seen();
      NoneLagging(contents);
      assert ops[..0] == [];
      for i := 0 to |ops|
        invariant Valid() && |contents| == |start|
        invariant disk0 == start ==> Lagging(disk, start, ops[..i])
        invariant |results| == i
        invariant contents == After(start, ops[..i])
        invariant Seen() == ClockAfter(clock0, ops[..i])
        invariant forall j :: 0 <= j < i && ops[j].Read? ==>
          results[j] == LastWritten(ops[..j], ops[j].sector, start[ops[j].sector])
      {
        assert InRange(ops[i], |contents|);
        assert ops[..i + 1] == ops[..i] + [ops[i]];
        ghost var disk1 := disk;
        AfterNext(start, ops[..i], ops[i]);
        ClockAfterNext(clock0, ops[..i], ops[i]);
        if ops[i].Read? {
          AfterIsLastWritten(start, ops[..i], ops[i].sector);
        }
        var r := Do(ops[i]);
        if disk0 == start {
          LaggingNext(start, disk1, disk, ops[..i], ops[i]);
        }
        results := results + [r];
      }
      assert ops[..|ops|] == ops;
    }
  }

  // ---------- Runs ----------

  datatype Op = Read(sector: nat) | Write(sector: nat, block: Block) | Flush | Reset

  predicate InRange(op: Op, deviceSize: nat) {
    op.Read? || op.Write? ==> op.sector < deviceSize
  }

  ghost predicate AllInRange(ops: seq<Op>, deviceSize: nat) {
    forall i :: 0 <= i < |ops| ==> InRange(ops[i], deviceSize)
  }

  function Applied(store: seq<Block>, op: Op): (r: seq<Block>)
    ensures |r| == |store|
  {
    if op.Write? && op.sector < |store| then store[op.sector := op.block] else store
  }

  /** The plain store: one array of blocks that only writes change. */
  ghost function After(store: seq<Block>, ops: seq<Op>): (r: seq<Block>)
    requires AllInRange(ops, |store|)
    ensures |r| == |store|
  {
    if ops == [] then store
    else
      Applied(After(store, ops[..|ops| - 1]), ops[|ops| - 1])
  }

  lemma AfterNext(store: seq<Block>, ops: seq<Op>, op: Op)
    requires AllInRange(ops + [op], |store|) && AllInRange(ops, |store|)
    ensures After(store, ops + [op]) == Applied(After(store, ops), op)
  {
    assert (ops + [op])[..|ops|] == ops;
  }

  /** The block most recently written to `s`, or `initial` if none was. */
  function LastWritten(ops: seq<Op>, s: nat, initial: Block): Block {
    if ops == [] then initial
    else
      var last := ops[|ops| - 1];
      if last.Write? && last.sector == s then last.block
      else LastWritten(ops[..|ops| - 1], s, initial)
  }

  lemma {:induction false} AfterIsLastWritten(store: seq<Block>, ops: seq<Op>, s: nat)
    requires s < |store|
    requires AllInRange(ops, |store|)
    ensures After(store, ops)[s] == LastWritten(ops, s, store[s])
  {
    if ops != [] {
      AfterIsLastWritten(store, ops[..|ops| - 1], s);
    }
  }

  // ---------- Hits and misses ----------

  function ClockStep(c: Clock, op: Op): Clock {
    match op
    case Read(s) => Accessed(c, s)
    case Write(s, _) => Accessed(c, s)
    case Flush => c
    case Reset => Fresh()
  }

  /** The plain clock after a run. */
  function ClockAfter(c: Clock, ops: seq<Op>): Clock {
    if ops == [] then c else ClockStep(ClockAfter(c, ops[..|ops| - 1]), ops[|ops| - 1])
  }

  lemma ClockAfterNext(c: Clock, ops: seq<Op>, op: Op)
    ensures ClockAfter(c, ops + [op]) == ClockStep(ClockAfter(c, ops), op)
  {
    assert (ops + [op])[..|ops|] == ops;
  }

  /** The sectors that a run reads or writes. */
  function Sectors(ops: seq<Op>): set<nat> {
    set i | 0 <= i < |ops| && (ops[i].Read? || ops[i].Write?) :: ops[i].sector
  }

  /** How many reads and writes there are. */
  function Accesses(ops: seq<Op>): nat {
    if ops == [] then 0
    else Accesses(ops[..|ops| - 1]) + if ops[|ops| - 1].Read? || ops[|ops| - 1].Write? then 1 else 0
  }

  /**
   Nothing is evicted before 64 different sectors have been used: from an empty cache, each
   of up to 64 sectors is missed once, however often and in whatever order they are used.
   */
  lemma MissesOncePerSector(ops: seq<Op>)
    requires |Sectors(ops)| <= 64 && forall i :: 0 <= i < |ops| ==> !ops[i].Reset?
    ensures
      var c := ClockAfter(Fresh(), ops);
      c.misses == |Sectors(ops)| && c.hits + c.misses == Accesses(ops)
  {
    FillingRun(ops);
  }

  lemma {:induction false} FillingRun(ops: seq<Op>)
    requires |Sectors(ops)| <= 64 && forall i :: 0 <= i < |ops| ==> !ops[i].Reset?
    ensures
      var c := ClockAfter(Fresh(), ops);
      Filling(c, Sectors(ops)) && c.hits + c.misses == Accesses(ops)
  {
    if ops == [] {
      assert Sectors(ops) == {};
      FreshFilling();
    } else {
      var front, last := ops[..|ops| - 1], ops[|ops| - 1];
      assert ops == front + [last];
      SectorsNext(front, last);
      if last.Read? || last.Write? {
        NoFewer(Sectors(front), last.sector);
        FillingRun(front);
        hide Sectors, Accessed, Fresh;
        FillingNext(ClockAfter(Fresh(), front), Sectors(front), last.sector);
      } else {
        FillingRun(front);
      }
    }
  }

  lemma SectorsNext(ops: seq<Op>, op: Op)
    ensures Sectors(ops + [op]) == if op.Read? || op.Write? then Sectors(ops) + {op.sector} else Sectors(ops)
  {
    var more := ops + [op];
    assert forall i :: 0 <= i < |ops| ==> more[i] == ops[i];
    assert more[|ops|] == op;
  }

  lemma NoFewer(sectors: set<nat>, s: nat)
    ensures |sectors| <= |sectors + {s}|
  {
    if s in sectors {
      assert sectors + {s} == sectors;
    }
  }

  /** Sectors 0, 1 and 0 again: one hit. */
  lemma ThreeReads()
    ensures
      var c := ClockAfter(Fresh(), [Read(0), Read(1), Read(0)]);
      c.hits == 1 && c.misses == 2
  {
    var ops := [Read(0), Read(1), Read(0)];
    assert ops[0].sector == 0 && ops[1].sector == 1;
    assert Sectors(ops) == {0, 1};
    assert Accesses(ops) == 3 by {
      var two := ops[..2];
      var one := two[..1];
      assert one[..0] == [] && one[0] == Read(0) && Accesses(one) == 1;
      assert two[1] == Read(1) && Accesses(two) == 2;
    }
    MissesOncePerSector(ops);
  }

  // ---------- How far the device lags behind ----------

  /** After these operations nothing is dirty. */
  predicate Settles(op: Op) {
    op.Flush? || op.Reset?
  }

  /** How many operations there are up to the last that settles; 0 if none does. */
  function LastSettling(ops: seq<Op>): (k: nat)
    ensures k <= |ops|
  {
    if ops == [] then 0
    else if Settles(ops[|ops| - 1]) then |ops|
    else LastSettling(ops[..|ops| - 1])
  }

  /** `s` is not written after the last operation that settles. */
  ghost predicate Settled(ops: seq<Op>, s: nat) {
    forall i :: LastSettling(ops) <= i < |ops| ==> !(ops[i].Write? && ops[i].sector == s)
  }

  /** `b` is what the sector held at some moment since the last operation that settles. */
  ghost predicate Held(ops: seq<Op>, s: nat, initial: Block, b: Block) {
    exists j :: LastSettling(ops) <= j <= |ops| && b == LastWritten(ops[..j], s, initial)
  }

  /** Every sector of the device holds what the contents have held there since the last operation that settles. */
  ghost predicate Lagging(disk: seq<Block>, start: seq<Block>, ops: seq<Op>) {
    |disk| == |start| && forall s :: 0 <= s < |disk| ==> Held(ops, s, start[s], disk[s])
  }

  lemma NoneLagging(contents: seq<Block>)
    ensures Lagging(contents, contents, [])
    ensures After(contents, []) == contents
  {
    var ops: seq<Op> := [];
    forall s | 0 <= s < |contents|
      ensures Held(ops, s, contents[s], contents[s])
    {
      assert LastWritten(ops[..0], s, contents[s]) == contents[s];
    }
  }

  lemma LaggingNext(start: seq<Block>, disk1: seq<Block>, disk: seq<Block>, ops: seq<Op>, op: Op)
    requires AllInRange(ops, |start|) && Lagging(disk1, start, ops) && CaughtUp(disk1, disk, After(start, ops))
    requires Settles(op) ==> disk == After(start, ops)
    ensures Lagging(disk, start, ops + [op])
  {
    forall s | 0 <= s < |disk|
      ensures Held(ops + [op], s, start[s], disk[s])
    {
      AfterIsLastWritten(start, ops, s);
      HeldNext(ops, op, s, start[s], disk1[s], disk[s]);
    }
  }

  lemma HeldNext(ops: seq<Op>, op: Op, s: nat, initial: Block, b1: Block, b: Block)
    requires Held(ops, s, initial, b1) && (b == b1 || b == LastWritten(ops, s, initial))
    requires Settles(op) ==> b == LastWritten(ops, s, initial)
    ensures Held(ops + [op], s, initial, b)
  {
    var more, n := ops + [op], |ops|;
    assert more[..n] == ops == ops[..n] && more[..n + 1] == more;
    if Settles(op) {
      assert LastWritten(more[..n + 1], s, initial) == b;
    } else if b == LastWritten(ops, s, initial) {
      assert LastWritten(more[..n], s, initial) == b;
    } else {
      var j :| LastSettling(ops) <= j <= n && b == LastWritten(ops[..j], s, initial);
      assert more[..j] == ops[..j];
    }
  }

  lemma SettledIsKept(disk: seq<Block>, start: seq<Block>, ops: seq<Op>, s: nat)
    requires Lagging(disk, start, ops) && s < |disk| && Settled(ops, s)
    ensures disk[s] == LastWritten(ops, s, start[s])
  {
    assert Held(ops, s, start[s], disk[s]);
    var j :| LastSettling(ops) <= j <= |ops| && disk[s] == LastWritten(ops[..j], s, start[s]);
    NotWrittenSince(ops, s, start[s], j);
  }

  lemma {:induction false} NotWrittenSince(ops: seq<Op>, s: nat, initial: Block, j: nat)
    requires j <= |ops| && forall i :: j <= i < |ops| ==> !(ops[i].Write? && ops[i].sector == s)
    ensures LastWritten(ops, s, initial) == LastWritten(ops[..j], s, initial)
  {
    if j == |ops| {
      assert ops[..j] == ops;
    } else {
      var front := ops[..|ops| - 1];
      NotWrittenSince(front, s, initial, j);
      assert front[..j] == ops[..j];
    }
  }
}
