/**
 The clock algorithm alone: 64 lines, each empty or naming a sector and whether it has been
 used since the hand last passed it.  No data, no device, and no search for a victim
 other than the hand going round.
 */
module ClockRule {

  import opened Options

  datatype Line = Line(sector: nat, used: bool)

  datatype Clock = Clock(lines: seq<Option<Line>>, hand: nat, hits: nat, misses: nat)

  /** Nothing held yet. */
  function Fresh(): Clock {
    Clock(seq(64, _ => None), 0, 0, 0)
  }

  predicate Has(line: Option<Line>, sector: nat) {
    line.Some? && line.value.sector == sector
  }

  predicate Used(line: Option<Line>) {
    line.Some? && line.value.used
  }

  function WithUse(line: Option<Line>, used: bool): Option<Line> {
    if line.Some? then Some(line.value.(used := used)) else None
  }

  /** The line that has the sector, or the number of lines. */
  function Find(lines: seq<Option<Line>>, sector: nat): (i: nat)
    ensures i <= |lines|
    ensures i < |lines| ==> Has(lines[i], sector)
    ensures forall j :: 0 <= j < i ==> !Has(lines[j], sector)
  {
    if lines == [] then 0
    else if Has(lines[0], sector) then 0
    else 1 + Find(lines[1..], sector)
  }

  /** The hand goes on past used lines, taking their marks away, for at most `turns` of them. */
  function Turn(lines: seq<Option<Line>>, hand: nat, turns: nat): (r: (seq<Option<Line>>, nat))
    ensures |r.0| == |lines| && (hand < |lines| ==> r.1 < |lines|)
    decreases turns
  {
    if turns == 0 || hand >= |lines| || !Used(lines[hand]) then (lines, hand)
    else Turn(lines[hand := WithUse(lines[hand], false)], if hand + 1 == |lines| then 0 else hand + 1, turns - 1)
  }

  /** A read or a write of a sector. */
  function Accessed(c: Clock, sector: nat): Clock {
    var i := Find(c.lines, sector);
    if i < |c.lines| then c.(lines := c.lines[i := WithUse(c.lines[i], true)], hits := c.hits + 1)
    else
      var (lines, hand) := Turn(c.lines, c.hand, 64);
      if hand < |lines| then Clock(lines[hand := Some(Line(sector, true))], hand, c.hits, c.misses + 1)
      else c
  }

  lemma FindIs(lines: seq<Option<Line>>, sector: nat, i: nat)
    requires i < |lines| && Has(lines[i], sector)
    requires forall j :: 0 <= j < |lines| && Has(lines[j], sector) ==> j == i
    ensures Find(lines, sector) == i
  {
    var k := Find(lines, sector);
    assert k >= i ==> k == i;
  }

  // ---------- As long as there are empty lines, nothing is evicted ----------

  /** The first `n` lines are taken, the others are empty. */
  ghost predicate TakenUpTo(lines: seq<Option<Line>>, n: nat) {
    |lines| == 64 && n <= 64 && forall i :: 0 <= i < 64 ==> (lines[i].Some? <==> i < n)
  }

  ghost predicate Names(lines: seq<Option<Line>>, sectors: set<nat>) {
    && (forall i :: 0 <= i < |lines| && lines[i].Some? ==> lines[i].value.sector in sectors)
    && (forall s :: s in sectors ==> InSome(lines, s))
  }

  ghost predicate InSome(lines: seq<Option<Line>>, s: nat) {
    exists i :: 0 <= i < |lines| && Has(lines[i], s)
  }

  /** `sectors` fill the first lines, once each, and the hand is at the last that was filled. */
  ghost predicate Filling(c: Clock, sectors: set<nat>) {
    var n := |sectors|;
    && TakenUpTo(c.lines, n) && Names(c.lines, sectors)
    && c.hand == (if n == 0 then 0 else n - 1)
    && (n > 0 ==> Used(c.lines[n - 1]))
    && c.misses == n
  }

  lemma FreshFilling()
    ensures Filling(Fresh(), {})
  {
  }

  /** Putting a line in the place of one with the same sector, or of an empty one. */
  lemma NamesUpdate(lines: seq<Option<Line>>, sectors: set<nat>, i: nat, line: Line)
    requires Names(lines, sectors) && i < |lines|
    requires lines[i].Some? ==> line.sector == lines[i].value.sector
    ensures Names(lines[i := Some(line)], sectors + {line.sector})
  {
    var lines' := lines[i := Some(line)];
    forall s | s in sectors + {line.sector}
      ensures InSome(lines', s)
    {
      if s == line.sector {
        assert Has(lines'[i], s);
      } else {
        var j :| 0 <= j < |lines| && Has(lines[j], s);
        assert Has(lines'[j], s);
      }
    }
  }

  lemma FindIff(lines: seq<Option<Line>>, sectors: set<nat>, s: nat)
    requires Names(lines, sectors)
    ensures Find(lines, s) < |lines| <==> s in sectors
  {
  }

  /** A sector seen before is a hit, a new one a miss that takes an empty line. */
  lemma FillingNext(c: Clock, sectors: set<nat>, s: nat)
    requires Filling(c, sectors) && |sectors + {s}| <= 64
    ensures Filling(Accessed(c, s), sectors + {s})
    ensures Accessed(c, s).hits == c.hits + if s in sectors then 1 else 0
  {
    FindIff(c.lines, sectors, s);
    if s in sectors {
      assert sectors + {s} == sectors;
      var i := Find(c.lines, s);
      hide Find, Turn, Names;
      NamesUpdate(c.lines, sectors, i, Line(s, true));
    } else {
      hide Find, Names;
      FillingMiss(c, sectors, s);
    }
  }

  lemma FillingMiss(c: Clock, sectors: set<nat>, s: nat)
    requires Filling(c, sectors) && |sectors| < 64 && s !in sectors && Find(c.lines, s) == 64
    ensures Filling(Accessed(c, s), sectors + {s}) && Accessed(c, s).hits == c.hits
  {
    hide Find, Names;
    var n := |sectors|;
    TurnOnce(c, sectors);
    var lines := if n == 0 then c.lines else c.lines[n - 1 := WithUse(c.lines[n - 1], false)];
    assert Accessed(c, s) == Clock(lines[n := Some(Line(s, true))], n, c.hits, n + 1);
    hide Turn, Accessed;
    if n > 0 {
      var passed := c.lines[n - 1].value.(used := false);
      NamesUpdate(c.lines, sectors, n - 1, passed);
      assert sectors + {passed.sector} == sectors by { PassedIsOne(c, sectors, n - 1); }
    }
    NamesUpdate(lines, sectors, n, Line(s, true));
  }

  lemma PassedIsOne(c: Clock, sectors: set<nat>, i: nat)
    requires Names(c.lines, sectors) && i < |c.lines| && c.lines[i].Some?
    ensures c.lines[i].value.sector in sectors
  {
  }

  lemma TurnOnce(c: Clock, sectors: set<nat>)
    requires Filling(c, sectors) && |sectors| < 64
    ensures
      var n := |sectors|;
      Turn(c.lines, c.hand, 64) ==
      (if n == 0 then c.lines else c.lines[n - 1 := WithUse(c.lines[n - 1], false)], n)
  {
    hide Names;
    var n := |sectors|;
    if n > 0 {
      var lines := c.lines[n - 1 := WithUse(c.lines[n - 1], false)];
      assert Turn(lines, n, 63) == (lines, n);
    }
  }
}
