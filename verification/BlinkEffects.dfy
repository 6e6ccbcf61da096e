/** What each command on the blinkers changes, what it leaves alone, and exactly when it is refused. */
module BlinkEffects {
  import opened Bytes
  import opened Blinkers

  /** The blinkers at a location, in use. */
  predicate Taken(f: Field, location: nat)
    requires ValidField(f)
  {
    exists slot :: slot in f.list && f.blinks[slot].location == location
  }

  /** Place `k` of the list holds the newest blinker at a location. */
  predicate Newest(f: Field, location: nat, k: nat)
    requires ValidField(f)
  {
    && k < |f.list| && f.blinks[f.list[k]].location == location
    && forall m :: 0 <= m < k ==> f.blinks[f.list[m]].location != location
  }

  lemma NewestIsUnique(f: Field, location: nat, k: nat, m: nat)
    requires ValidField(f) && Newest(f, location, k) && Newest(f, location, m)
    ensures k == m
  {
  }

  lemma FindIsNewest(f: Field, location: nat)
    requires ValidField(f)
    ensures Find(f, location, 0) < |f.list| <==> Taken(f, location)
    ensures forall k: nat :: Newest(f, location, k) ==> k == Find(f, location, 0)
    ensures Taken(f, location) ==> Newest(f, location, Find(f, location, 0))
  {
    var k := Find(f, location, 0);
    if k < |f.list| {
      assert f.list[k] in f.list;
    }
    forall n: nat | Newest(f, location, n) ensures n == k {
      if k < |f.list| {
        NewestIsUnique(f, location, n, k);
      }
    }
  }

  /** A remove is refused if and only if no blinker is at the location, and then changes nothing. */
  lemma RemoveFailsExactly(f: Field, location: nat)
    requires ValidField(f)
    ensures var o := RemoveStep(f, location);
            (o.1 == 0 || o.1 == -1) && (o.1 == -1 <==> !Taken(f, location)) && (o.1 == -1 ==> o.0 == f)
  {
    FindIsNewest(f, location);
  }

  /** Otherwise it takes the newest one out of the list and gives back its slot; all else stays, the screen too. */
  lemma RemoveTakesNewest(f: Field, location: nat, k: nat, slot: nat)
    requires ValidField(f) && Newest(f, location, k) && slot < POOL
    ensures var g := RemoveStep(f, location).0;
            && g.vmem == f.vmem && |g.blinks| == POOL
            && |g.list| == |f.list| - 1
            && (slot in g.list <==> slot in f.list && slot != f.list[k])
            && (slot == f.list[k] ==> g.blinks[slot].location == 0)
            && (slot != f.list[k] ==> g.blinks[slot] == f.blinks[slot])
    ensures RemoveStep(f, location).0.list == f.list[..k] + f.list[k + 1..]
  {
    FindIsNewest(f, location);
    WithoutSlot(f.list, k);
  }

  /** A sync is refused if and only if one of the two locations has no blinker, and then changes nothing. */
  lemma SyncFailsExactly(f: Field, from: nat, to: nat)
    requires ValidField(f)
    ensures var o := SyncStep(f, from, to);
            && (o.1 == 0 || o.1 == -1) && (o.1 == -1 <==> !Taken(f, from) || !Taken(f, to))
            && (o.1 == -1 ==> o.0 == f)
  {
    FindIsNewest(f, from);
    FindIsNewest(f, to);
  }

  /** Otherwise the second takes over the rhythm of the first, keeps its place and characters, and shows as off. */
  lemma SyncCopiesRhythm(f: Field, from: nat, to: nat, k: nat, m: nat, slot: nat)
    requires ValidField(f) && Newest(f, from, k) && Newest(f, to, m) && slot < POOL
    ensures var g := SyncStep(f, from, to).0;
            var a, b := f.blinks[f.list[k]], f.blinks[f.list[m]];
            && g.list == f.list && |g.blinks| == POOL && |g.vmem| == |f.vmem|
            && (slot != f.list[m] ==> g.blinks[slot] == f.blinks[slot])
            && (slot == f.list[m] ==>
                 var c := g.blinks[slot];
                 SameRhythm(c, a) && c.location == b.location && c.onChar == b.onChar && c.offChar == b.offChar)
            && g.vmem[2 * b.location] == b.offChar
  {
    FindIsNewest(f, from);
    FindIsNewest(f, to);
  }

  /** The cell is the character of a blinker in use. */
  predicate Blinks(f: Field, cell: nat)
    requires ValidField(f)
  {
    exists slot :: slot in f.list && cell == 2 * f.blinks[slot].location
  }

  lemma {:induction false} TickKeepsCell(f: Field, n: nat, cell: nat)
    requires ValidField(f) && n <= |f.list| && cell < |f.vmem| && !Blinks(f, cell)
    ensures TickTo(f, n).vmem[cell] == f.vmem[cell]
  {
    if n > 0 {
      var g, slot := TickTo(f, n - 1), f.list[n - 1];
      TickKeepsCell(f, n - 1, cell);
      assert slot in f.list && g.blinks[slot].location == f.blinks[slot].location;
      assert cell != 2 * f.blinks[slot].location;
    }
  }

  /** No event writes to a cell of video memory that is not the character of a blinker in use, or of the one added. */
  lemma OtherCellsStay(f: Field, ev: Event, cell: nat)
    requires ValidField(f) && ValidEvent(ev) && cell < |f.vmem| && !Blinks(f, cell)
    requires ev.Add? ==> cell != 2 * ev.blink.location
    ensures Step(f, ev).vmem[cell] == f.vmem[cell]
  {
    match ev
    case Tick => TickKeepsCell(f, |f.list|, cell);
    case Sync(from, to) =>
      var m := Find(f, to, 0);
      assert m < |f.list| ==> f.list[m] in f.list;
    case _ =>
  }
}
