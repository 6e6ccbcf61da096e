/** What the two texts of `fish` look like on the screen, tick after tick. */
module Animation {
  import opened Bytes
  import opened Blinkers
  import opened BlinkEffects
  import opened Frames

  function Adds(bs: seq<Blink>): seq<Event> {
    seq(|bs|, k requires 0 <= k < |bs| => Add(bs[k]))
  }

  function TicksOf(n: nat): seq<Event> {
    seq(n, _ => Tick)
  }

  /** Requests with places of their own on the screen. */
  predicate Placed(bs: seq<Blink>) {
    && (forall k :: 0 <= k < |bs| ==> Words(bs[k]) && 0 < bs[k].location < POOL)
    && forall i, j :: 0 <= i < j < |bs| ==> bs[i].location != bs[j].location
  }

  /** The field holds a fresh blinker for each request, newest first, and shows it. */
  predicate Carries(g: Field, bs: seq<Blink>) {
    && ValidField(g) && Apart(g) && Displayed(g) && |g.list| == |bs|
    && forall k :: 0 <= k < |bs| ==> g.blinks[g.list[|bs| - 1 - k]] == Fresh(bs[k])
  }

  function Locations(bs: seq<Blink>): seq<nat> {
    seq(|bs|, k requires 0 <= k < |bs| => bs[k].location)
  }

  lemma FewRequests(bs: seq<Blink>)
    requires Placed(bs)
    ensures |bs| < POOL
  {
    var places := Members(Locations(bs));
    forall i | i in places ensures i in Below(POOL) && i != 0 {
      assert i in Locations(bs);
    }
    SubsetIsSmaller(places, Below(POOL) - {0});
  }

  lemma {:induction false} AddsAreCarried(f: Field, bs: seq<Blink>)
    requires ValidField(f) && f.list == [] && Placed(bs)
    ensures ValidRun(Adds(bs)) && Carries(Run(f, Adds(bs)), bs)
  {
    if bs != [] {
      var n := |bs| - 1;
      var b := bs[n];
      AddsAreCarried(f, bs[..n]);
      assert Adds(bs)[..n] == Adds(bs[..n]);
      FewRequests(bs);
      OneCarriedMore(Run(f, Adds(bs[..n])), bs, n);
    }
  }

  lemma OneCarriedMore(g: Field, bs: seq<Blink>, n: nat)
    requires Placed(bs) && n == |bs| - 1 < POOL && Carries(g, bs[..n])
    ensures Carries(AddStep(g, bs[n]).0, bs)
  {
    hide AddStep, Apart, Displayed, Distinct;
    var b := bs[n];
    AddFailsExactly(g, b);
    assert AddStep(g, b).1 == 0 by { AcceptedOrNot(g, b); }
    LocationIsNew(g, bs, n);
    AddKeepsApartExactly(g, b);
    AddKeepsDisplayed(g, b);
    AddedNodes(g, b);
    var h := AddStep(g, b).0;
    forall k | 0 <= k < |bs| ensures h.blinks[h.list[n - k]] == Fresh(bs[k]) {
      assert k < n ==> g.blinks[g.list[n - 1 - k]] == Fresh(bs[..n][k]);
    }
  }

  lemma AcceptedOrNot(g: Field, b: Blink)
    requires ValidField(g)
    ensures AddStep(g, b).1 == 0 || AddStep(g, b).1 == -1
  {
  }

  lemma LocationIsNew(g: Field, bs: seq<Blink>, n: nat)
    requires Placed(bs) && n == |bs| - 1 && Carries(g, bs[..n])
    ensures Find(g, bs[n].location, 0) == |g.list|
  {
    forall m | 0 <= m < n ensures g.blinks[g.list[m]].location != bs[n].location {
      assert g.blinks[g.list[n - 1 - (n - 1 - m)]] == Fresh(bs[..n][n - 1 - m]);
    }
  }

  lemma {:induction false} TicksAreFree(g: Field, n: nat)
    requires ValidField(g)
    ensures ValidRun(TicksOf(n)) && PlacesFree(g, TicksOf(n)) && TickCount(TicksOf(n)) == n
    ensures forall i :: SparedBy(g, TicksOf(n), i)
  {
    if n > 0 {
      TicksAreFree(g, n - 1);
      assert TicksOf(n)[..n - 1] == TicksOf(n - 1);
    }
  }

  /** A listed blinker ticks `n` times and is shown as it stands then. */
  lemma ListedBlink(g: Field, n: nat, i: nat)
    requires ValidField(g) && Apart(g) && Displayed(g) && i in g.list
    ensures ValidRun(TicksOf(n))
    ensures var h := Run(g, TicksOf(n));
            && ValidField(h) && i < POOL && h.blinks[i] == Ticks(g.blinks[i], n)
            && h.vmem[2 * h.blinks[i].location] == CharNow(h.blinks[i])
  {
    hide Run, Ticks, CharNow, PlacesFree, SparedBy;
    TicksAreFree(g, n);
    RunTicks(g, TicksOf(n), i);
    RunKeepsDisplayed(g, TicksOf(n));
  }

  /** After `n` ticks each request shows its character for that part of its period. */
  lemma CarriedBlink(g: Field, bs: seq<Blink>, n: nat, k: nat)
    requires Placed(bs) && Carries(g, bs) && k < |bs|
    ensures ValidRun(TicksOf(n))
    ensures var b := bs[k];
            var on := n % (Duration(b.onLength) + Duration(b.offLength)) < Duration(b.onLength);
            Run(g, TicksOf(n)).vmem[2 * b.location] == if on then b.onChar else b.offChar
  {
    hide Run, Ticks, Apart, Displayed, Distinct;
    var i := g.list[|bs| - 1 - k];
    ListedBlink(g, n, i);
    TicksInPhase(bs[k], n);
  }

  /** Every cell that shows something has its place on the screen. */
  ghost predicate FitsScreen(t0: seq<Byte>, t1: seq<Byte>) {
    forall r: nat, c: nat :: Lit(t0, t1, r, c) ==> c < COLUMNS && r * COLUMNS + c + OFFSET < POOL
  }

  lemma RequestsArePlaced(t0: seq<Byte>, t1: seq<Byte>, adds: seq<Blink>, cells: seq<(nat, nat)>)
    requires Covers(t0, t1, adds, cells) && FitsScreen(t0, t1)
    ensures Placed(adds)
    ensures forall k :: 0 <= k < |adds| ==> adds[k].location == cells[k].0 * COLUMNS + cells[k].1 + OFFSET
  {
    hide CharIn, Lit;
    forall k | 0 <= k < |adds| ensures
      && Words(adds[k]) && cells[k].1 < COLUMNS
      && 0 < adds[k].location == cells[k].0 * COLUMNS + cells[k].1 + OFFSET < POOL
    {
      assert cells[k] in cells && Lit(t0, t1, cells[k].0, cells[k].1);
    }
  }

  lemma CellAlternates(f: Field, t0: seq<Byte>, t1: seq<Byte>, adds: seq<Blink>, cells: seq<(nat, nat)>, n: nat, k: nat)
    requires ValidField(f) && f.list == [] && FitsScreen(t0, t1) && Covers(t0, t1, adds, cells) && k < |cells|
    ensures ValidRun(Adds(adds)) && ValidRun(TicksOf(n))
    ensures var location := cells[k].0 * COLUMNS + cells[k].1 + OFFSET;
            location < POOL && Run(Run(f, Adds(adds)), TicksOf(n)).vmem[2 * location]
                               == Shown(CharIn(if n % 30 < 15 then t0 else t1, cells[k].0, cells[k].1))
  {
    hide CharIn, Lit, FitsScreen, Run, InOrder;
    RequestsArePlaced(t0, t1, adds, cells);
    AddsAreCarried(f, adds);
    CarriedBlink(Run(f, Adds(adds)), adds, n, k);
  }

  lemma CellIndex(t0: seq<Byte>, t1: seq<Byte>, adds: seq<Blink>, cells: seq<(nat, nat)>, r: nat, c: nat)
    returns (k: nat)
    requires Covers(t0, t1, adds, cells) && Lit(t0, t1, r, c)
    ensures k < |cells| && cells[k] == (r, c)
  {
    hide Lit, Requested, InOrder;
    k :| k < |cells| && cells[k] == (r, c);
  }

  /**
   * The animation of `fish`: texts that fit the screen, laid over each other, alternate in all their
   * cells together, the first for 15 ticks and then the second for 15.
   */
  lemma FramesAlternate(f: Field, t0: seq<Byte>, t1: seq<Byte>, adds: seq<Blink>, n: nat, r: nat, c: nat)
    requires ValidField(f) && f.list == [] && FitsScreen(t0, t1) && Lit(t0, t1, r, c)
    requires exists cells :: Covers(t0, t1, adds, cells)
    ensures ValidRun(Adds(adds)) && ValidRun(TicksOf(n))
    ensures r * COLUMNS + c + OFFSET < POOL
    ensures Run(Run(f, Adds(adds)), TicksOf(n)).vmem[2 * (r * COLUMNS + c + OFFSET)]
         == Shown(CharIn(if n % 30 < 15 then t0 else t1, r, c))
  {
    hide *;
    var cells :| Covers(t0, t1, adds, cells);
    var k := CellIndex(t0, t1, adds, cells, r, c);
    CellAlternates(f, t0, t1, adds, cells, n, k);
  }

  /** Of the blinkers that carry the requests none is at the cell. */
  lemma CarriedElsewhere(g: Field, bs: seq<Blink>, cell: nat)
    requires Carries(g, bs) && forall k :: 0 <= k < |bs| ==> cell != 2 * bs[k].location
    ensures !Blinks(g, cell)
  {
    hide Apart, Displayed, Distinct;
    forall slot | slot in g.list ensures cell != 2 * g.blinks[slot].location {
      var m :| 0 <= m < |g.list| && g.list[m] == slot;
      assert g.blinks[g.list[|bs| - 1 - (|bs| - 1 - m)]] == Fresh(bs[|bs| - 1 - m]);
    }
  }

  lemma {:induction false} AddsKeepCell(f: Field, bs: seq<Blink>, cell: nat)
    requires ValidField(f) && f.list == [] && Placed(bs) && cell < |f.vmem|
    requires forall k :: 0 <= k < |bs| ==> cell != 2 * bs[k].location
    ensures ValidRun(Adds(bs)) && Run(f, Adds(bs)).vmem[cell] == f.vmem[cell]
  {
    hide Carries, Step;
    if bs != [] {
      var n := |bs| - 1;
      AddsKeepCell(f, bs[..n], cell);
      assert Adds(bs)[..n] == Adds(bs[..n]);
      AddsAreCarried(f, bs[..n]);
      CarriedElsewhere(Run(f, Adds(bs[..n])), bs[..n], cell);
      OtherCellsStay(Run(f, Adds(bs[..n])), Add(bs[n]), cell);
    }
  }

  lemma TickKeepsPlaces(g: Field, cell: nat)
    requires ValidField(g) && !Blinks(g, cell)
    ensures !Blinks(Step(g, Tick), cell)
  {
    var h := TickStep(g);
    forall slot | slot in h.list ensures cell != 2 * h.blinks[slot].location {
      assert h.blinks[slot].location == g.blinks[slot].location;
    }
  }

  lemma {:induction false} TicksKeepCell(g: Field, n: nat, cell: nat)
    requires ValidField(g) && !Blinks(g, cell) && cell < |g.vmem|
    ensures ValidRun(TicksOf(n)) && !Blinks(Run(g, TicksOf(n)), cell)
    ensures Run(g, TicksOf(n)).vmem[cell] == g.vmem[cell]
  {
    hide Step, Blinks;
    if n > 0 {
      TicksKeepCell(g, n - 1, cell);
      assert TicksOf(n)[..n - 1] == TicksOf(n - 1);
      OtherCellsStay(Run(g, TicksOf(n - 1)), Tick, cell);
      TickKeepsPlaces(Run(g, TicksOf(n - 1)), cell);
    }
  }

  /** Neither text has a character other than a space here. */
  ghost predicate Dark(t0: seq<Byte>, t1: seq<Byte>, row: nat, col: nat) {
    CharIn(t0, row, col) in {32, 10} && CharIn(t1, row, col) in {32, 10}
  }

  lemma DarkIsNotLit(t0: seq<Byte>, t1: seq<Byte>, row: nat, col: nat)
    ensures Lit(t0, t1, row, col) <==> !Dark(t0, t1, row, col)
  {
    hide CharIn;
  }

  /** Cells where neither text has a character, and all attributes, are left as they were. */
  lemma DarkCellsStay(f: Field, t0: seq<Byte>, t1: seq<Byte>, adds: seq<Blink>, n: nat, cell: nat)
    requires ValidField(f) && f.list == [] && FitsScreen(t0, t1) && cell < |f.vmem|
    requires exists cells :: Covers(t0, t1, adds, cells)
    requires forall r: nat, c: nat :: cell == 2 * (r * 80 + c + 40) ==> Dark(t0, t1, r, c)
    ensures ValidRun(Adds(adds)) && ValidRun(TicksOf(n))
    ensures Run(Run(f, Adds(adds)), TicksOf(n)).vmem[cell] == f.vmem[cell]
  {
    hide Lit, FitsScreen, Run, InOrder, Carries, Dark, Placed, Blinks;
    var cells :| Covers(t0, t1, adds, cells);
    RequestsArePlaced(t0, t1, adds, cells);
    forall k | 0 <= k < |adds| ensures cell != 2 * adds[k].location {
      var (r, c) := cells[k];
      assert cells[k] in cells && Lit(t0, t1, r, c);
      DarkIsNotLit(t0, t1, r, c);
    }
    AddsAreCarried(f, adds);
    AddsKeepCell(f, adds, cell);
    CarriedElsewhere(Run(f, Adds(adds)), adds, cell);
    TicksKeepCell(Run(f, Adds(adds)), n, cell);
  }

  /** In every other cell the texts alternate, with a blank where one of them has ended its line. */
  lemma LitCellsAlternate(f: Field, t0: seq<Byte>, t1: seq<Byte>, adds: seq<Blink>, n: nat, r: nat, c: nat)
    requires ValidField(f) && f.list == [] && FitsScreen(t0, t1) && !Dark(t0, t1, r, c)
    requires exists cells :: Covers(t0, t1, adds, cells)
    ensures ValidRun(Adds(adds)) && ValidRun(TicksOf(n)) && r * 80 + c + 40 < 2000
    ensures var now := CharIn(if n % 30 < 15 then t0 else t1, r, c);
            Run(Run(f, Adds(adds)), TicksOf(n)).vmem[2 * (r * 80 + c + 40)] == if now == 10 then 32 else now
  {
    hide Lit, Covers, FitsScreen, Run, Dark, CharIn;
    DarkIsNotLit(t0, t1, r, c);
    FramesAlternate(f, t0, t1, adds, n, r, c);
  }
}
