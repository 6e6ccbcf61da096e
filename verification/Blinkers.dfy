/**
 * The blinking characters of `fish`: what a tick does to one of them, and what the commands do to
 * the pool of 2000 slots and the list of those in use, newest first.
 */
module Blinkers {
  import opened Bytes

  const POOL := 2000
  const WORD := 0x1_0000
  const SIGN := 0x8000
  const NULL := -1

  /** `struct mp1_blink_struct` without its link; numbers are 16-bit words. */
  datatype Blink = Blink(location: nat, onChar: Byte, offChar: Byte, onLength: nat, offLength: nat,
                         countdown: nat, status: nat)

  const ZERO := Blink(0, 0, 0, 0, 0, 0, 0)

  predicate Words(b: Blink) {
    b.location < WORD && b.onLength < WORD && b.offLength < WORD && b.countdown < WORD && b.status < WORD
  }

  predicate IsOn(b: Blink) {
    b.status % 2 == 1
  }

  /** The countdown after its decrement, and whether it is still above zero as a signed word. */
  function Decremented(countdown: nat): (r: nat)
    ensures r < WORD
  {
    (countdown + WORD - 1) % WORD
  }

  predicate Runs(b: Blink) {
    0 < Decremented(b.countdown) < SIGN
  }

  /** One tick of one blinker. */
  function BlinkTick(b: Blink): (r: Blink)
    ensures Words(b) ==> Words(r)
  {
    if Runs(b) then b.(countdown := Decremented(b.countdown))
    else if IsOn(b) then b.(countdown := b.offLength, status := b.status - 1)
    else b.(countdown := b.onLength, status := b.status + 1)
  }

  /** A blinker as `mp1_ioctl_add` puts it into the pool: on, with a full countdown. */
  function Fresh(b: Blink): Blink {
    b.(status := 1, countdown := b.onLength)
  }

  /** The character that belongs on the screen. */
  function CharNow(b: Blink): Byte {
    if IsOn(b) then b.onChar else b.offChar
  }

  function Ticks(b: Blink, n: nat): Blink {
    if n == 0 then b else BlinkTick(Ticks(b, n - 1))
  }

  /**
   * How many ticks a length lasts: itself, except that 0 and everything above 32768 ends at the
   * first tick, because the decremented countdown is then not above zero.
   */
  function Duration(length: nat): (d: nat)
    ensures d >= 1
  {
    if 1 <= length <= SIGN then length else 1
  }

  /** On for the first duration of each period and off for the rest, counting down in both. */
  predicate InPhase(b: Blink, start: Blink, r: nat) {
    var a := Duration(start.onLength);
    && b == start.(status := b.status, countdown := b.countdown)
    && (r < a ==> b.status == 1 && b.countdown + r == start.onLength)
    && (r >= a ==> b.status == 0 && b.countdown + (r - a) == start.offLength)
  }

  lemma PhaseStep(b: Blink, start: Blink, r: nat)
    requires Words(start) && r < Duration(start.onLength) + Duration(start.offLength) && InPhase(b, start, r)
    ensures InPhase(BlinkTick(b), start,
                    if r + 1 == Duration(start.onLength) + Duration(start.offLength) then 0 else r + 1)
  {
  }

  /**
   * The closed form, for all 16-bit lengths: after `n` ticks a blinker stands at `n` modulo its
   * period, on for the first part and off for the second, with the rest of that part to go.
   */
  lemma {:induction false} TicksInPhase(b: Blink, n: nat)
    requires Words(b)
    ensures InPhase(Ticks(Fresh(b), n), b, n % (Duration(b.onLength) + Duration(b.offLength)))
  {
    var p := Duration(b.onLength) + Duration(b.offLength);
    if n == 0 {
      RestIsUnique(0, 0, p, 0);
    } else {
      TicksInPhase(b, n - 1);
      ModStep(n - 1, p);
      PhaseStep(Ticks(Fresh(b), n - 1), b, (n - 1) % p);
    }
  }

  /** Everything `mp1_ioctl_sync` copies; blinkers that share it tick alike. */
  predicate SameRhythm(a: Blink, b: Blink) {
    a.onLength == b.onLength && a.offLength == b.offLength && a.countdown == b.countdown && a.status == b.status
  }

  /** The pool, its slots in use from the newest to the oldest, and video memory. */
  datatype Field = Field(blinks: seq<Blink>, list: seq<nat>, vmem: seq<Byte>)

  predicate Distinct(s: seq<nat>) {
    forall i, j :: 0 <= i < j < |s| ==> s[i] != s[j]
  }

  /** The list holds exactly the slots with a location, each once. */
  predicate ValidField(f: Field) {
    && |f.blinks| == POOL && |f.vmem| == 2 * POOL
    && Distinct(f.list)
    && (forall k :: 0 <= k < |f.list| ==> f.list[k] < POOL)
    && (forall i :: 0 <= i < POOL ==> Words(f.blinks[i]) && f.blinks[i].location < POOL)
    && (forall i :: 0 <= i < POOL ==> (f.blinks[i].location != 0 <==> i in f.list))
  }

  /** `mp1_poke`. */
  function Poke(vmem: seq<Byte>, location: nat, c: Byte): (r: seq<Byte>)
    requires 2 * location < |vmem|
    ensures |r| == |vmem|
  {
    vmem[2 * location := c]
  }

  /** `mp1_malloc`: the first slot from `i` on without a location, or 2000. */
  function FreeSlot(blinks: seq<Blink>, i: nat): (r: nat)
    requires i <= |blinks|
    ensures i <= r <= |blinks| && (r < |blinks| ==> blinks[r].location == 0)
    ensures forall k :: i <= k < r ==> blinks[k].location != 0
    decreases |blinks| - i
  {
    if i == |blinks| || blinks[i].location == 0 then i else FreeSlot(blinks, i + 1)
  }

  /** `mp1_find_helper`: the place of the newest blinker at a location, or the length of the list. */
  function Find(f: Field, location: nat, k: nat): (r: nat)
    requires ValidField(f) && k <= |f.list|
    ensures k <= r <= |f.list| && (r < |f.list| ==> f.blinks[f.list[r]].location == location)
    ensures forall m :: k <= m < r ==> f.blinks[f.list[m]].location != location
    decreases |f.list| - k
  {
    if k == |f.list| || f.blinks[f.list[k]].location == location then k else Find(f, location, k + 1)
  }

  function AddStep(f: Field, b: Blink): (Field, int)
    requires ValidField(f)
  {
    var i := FreeSlot(f.blinks, 0);
    if b.location >= POOL || i == POOL then (f, -1)
    else (Field(f.blinks[i := Fresh(b)], [i] + f.list, Poke(f.vmem, b.location, b.onChar)), 0)
  }

  function RemoveStep(f: Field, location: nat): (Field, int)
    requires ValidField(f)
  {
    var k := Find(f, location, 0);
    if k == |f.list| then (f, -1)
    else (f.(blinks := f.blinks[f.list[k] := ZERO], list := f.list[..k] + f.list[k + 1..]), 0)
  }

  /** The copy of `mp1_ioctl_sync`; the conditional move behind its bit test never happens. */
  function Synced(to: Blink, from: Blink): Blink {
    to.(onLength := from.onLength, offLength := from.offLength, countdown := from.countdown, status := from.status)
  }

  function SyncStep(f: Field, from: nat, to: nat): (Field, int)
    requires ValidField(f)
  {
    var k, m := Find(f, from, 0), Find(f, to, 0);
    if k == |f.list| || m == |f.list| then (f, -1)
    else
      var i, j := f.list[k], f.list[m];
      (f.(blinks := f.blinks[j := Synced(f.blinks[j], f.blinks[i])],
          vmem := Poke(f.vmem, f.blinks[j].location, f.blinks[j].offChar)), 0)
  }

  /** The body of the tasklet loop for slot `i`. */
  function TickSlot(f: Field, i: nat): (r: Field)
    requires |f.blinks| == POOL && i < POOL && |f.vmem| == 2 * POOL && f.blinks[i].location < POOL
    ensures |r.vmem| == |f.vmem|
  {
    var b := f.blinks[i];
    f.(blinks := f.blinks[i := BlinkTick(b)],
       vmem := if Runs(b) then f.vmem else Poke(f.vmem, b.location, CharNow(BlinkTick(b))))
  }

  /** `mp1_rtc_tasklet` over the first `n` nodes of the list. */
  function TickTo(f: Field, n: nat): (r: Field)
    requires ValidField(f) && n <= |f.list|
    ensures ValidField(r) && r.list == f.list
    ensures forall i :: 0 <= i < POOL ==>
      r.blinks[i] == if i in f.list[..n] then BlinkTick(f.blinks[i]) else f.blinks[i]
  {
    if n == 0 then f
    else
      var g := TickTo(f, n - 1);
      assert f.list[..n] == f.list[..n - 1] + [f.list[n - 1]];
      assert f.list[n - 1] !in f.list[..n - 1];
      TickSlot(g, f.list[n - 1])
  }

  function TickStep(f: Field): (r: Field)
    requires ValidField(f)
    ensures ValidField(r)
  {
    TickTo(f, |f.list|)
  }

  datatype Event = Add(blink: Blink) | Remove(location: nat) | Sync(from: nat, to: nat) | Tick

  /** The arguments are 16-bit, and no blinker sits at location 0, which would mark its slot free. */
  predicate ValidEvent(ev: Event) {
    match ev
    case Add(b) => Words(b) && b.location != 0
    case Remove(location) => location < WORD
    case Sync(from, to) => from < WORD && to < WORD
    case Tick => true
  }

  function Step(f: Field, ev: Event): Field
    requires ValidField(f)
  {
    match ev
    case Add(b) => AddStep(f, b).0
    case Remove(location) => RemoveStep(f, location).0
    case Sync(from, to) => SyncStep(f, from, to).0
    case Tick => TickStep(f)
  }

  /** An accepted blinker keeps the list exact if and only if its location is not 0. */
  lemma AddKeepsValidExactly(f: Field, b: Blink)
    requires ValidField(f) && Words(b) && AddStep(f, b).1 == 0
    ensures ValidField(AddStep(f, b).0) <==> b.location != 0
  {
    var i := FreeSlot(f.blinks, 0);
    var g := AddStep(f, b).0;
    assert g.list[0] == i && g.blinks[i].location == b.location;
    assert i in g.list;
    if b.location != 0 {
      assert forall k :: 0 < k < |g.list| ==> g.list[k] == f.list[k - 1];
      forall k | 0 <= k < POOL ensures g.blinks[k].location != 0 <==> k in g.list {
        assert k in g.list <==> k == i || k in f.list;
      }
      assert ValidField(g);
    }
  }

  /** Removing a slot from the list leaves the other slots in it. */
  lemma WithoutSlot(s: seq<nat>, k: nat)
    requires k < |s| && Distinct(s)
    ensures Distinct(s[..k] + s[k + 1..])
    ensures forall i :: i in s[..k] + s[k + 1..] <==> i in s && i != s[k]
  {
    var t := s[..k] + s[k + 1..];
    assert forall m :: 0 <= m < |t| ==> t[m] == s[if m < k then m else m + 1];
    forall i | i in s && i != s[k] ensures i in t {
      var j :| 0 <= j < |s| && s[j] == i;
      assert t[if j < k then j else j - 1] == i;
    }
  }

  lemma RemoveKeepsValid(f: Field, location: nat)
    requires ValidField(f)
    ensures ValidField(RemoveStep(f, location).0)
  {
    var k := Find(f, location, 0);
    if k < |f.list| {
      var slot, list := f.list[k], f.list[..k] + f.list[k + 1..];
      WithoutSlot(f.list, k);
      assert RemoveStep(f, location).0 == Field(f.blinks[slot := ZERO], list, f.vmem);
      RemoveKeepsExact(f, slot, list);
    }
  }

  lemma RemoveKeepsExact(f: Field, slot: nat, list: seq<nat>)
    requires ValidField(f) && slot < POOL && Distinct(list) && forall i :: i in list <==> i in f.list && i != slot
    ensures ValidField(Field(f.blinks[slot := ZERO], list, f.vmem))
  {
    forall m | 0 <= m < |list| ensures list[m] < POOL {
      assert list[m] in f.list;
    }
  }

  lemma SyncKeepsValid(f: Field, from: nat, to: nat)
    requires ValidField(f)
    ensures ValidField(SyncStep(f, from, to).0)
  {
  }

  /** Every command and every tick keeps the list exact. */
  lemma StepKeepsValid(f: Field, ev: Event)
    requires ValidField(f) && ValidEvent(ev)
    ensures ValidField(Step(f, ev))
  {
    match ev
    case Add(b) => if AddStep(f, b).1 == 0 { AddKeepsValidExactly(f, b); }
    case Remove(location) => RemoveKeepsValid(f, location);
    case Sync(from, to) => SyncKeepsValid(f, from, to);
    case Tick =>
  }

  /** Of all commands with 16-bit arguments only an accepted add at location 0 spoils the list. */
  lemma StepKeepsValidExactly(f: Field, ev: Event)
    requires ValidField(f) && (ev.Add? ==> Words(ev.blink))
    ensures ValidField(Step(f, ev)) <==> !(ev.Add? && ev.blink.location == 0 && AddStep(f, ev.blink).1 == 0)
  {
    match ev
    case Add(b) => if AddStep(f, b).1 == 0 { AddKeepsValidExactly(f, b); }
    case Remove(location) => RemoveKeepsValid(f, location);
    case Sync(from, to) => SyncKeepsValid(f, from, to);
    case Tick =>
  }

  function Below(n: nat): (r: set<nat>)
    ensures |r| == n && forall i: nat :: i in r <==> i < n
  {
    if n == 0 then {} else Below(n - 1) + {n - 1}
  }

  function Members(s: seq<nat>): (r: set<nat>)
    requires Distinct(s)
    ensures |r| == |s| && forall i :: i in r <==> i in s
  {
    if s == [] then {}
    else
      assert s == s[..|s| - 1] + [s[|s| - 1]];
      Members(s[..|s| - 1]) + {s[|s| - 1]}
  }

  /** The slots without a location. */
  function FreeSlots(blinks: seq<Blink>): set<nat> {
    set k | 0 <= k < |blinks| && blinks[k].location == 0
  }

  /** Nodes of the list and free slots make up the pool. */
  lemma PoolIsConserved(f: Field)
    requires ValidField(f)
    ensures |f.list| + |FreeSlots(f.blinks)| == POOL
  {
    var used, free := Members(f.list), FreeSlots(f.blinks);
    assert used !! free;
    assert used + free == Below(POOL);
  }

  /** An add is refused exactly when the location is off the screen or all slots are in use. */
  lemma AddFailsExactly(f: Field, b: Blink)
    requires ValidField(f)
    ensures AddStep(f, b).1 == -1 <==> b.location >= POOL || |f.list| == POOL
    ensures AddStep(f, b).1 == -1 ==> AddStep(f, b).0 == f
  {
    PoolIsConserved(f);
    var i := FreeSlot(f.blinks, 0);
    if i < POOL {
      assert i in FreeSlots(f.blinks);
    } else {
      assert FreeSlots(f.blinks) == {};
    }
  }

  /** A new blinker is found at once; removing it brings back the list, and the pool up to that slot. */
  lemma AddThenRemove(f: Field, b: Blink)
    requires ValidField(f) && Words(b) && b.location != 0 && AddStep(f, b).1 == 0
    ensures var g := AddStep(f, b).0;
            ValidField(g) && Find(g, b.location, 0) == 0 &&
            var h := RemoveStep(g, b.location);
            h.1 == 0 && h.0.list == f.list && h.0.blinks == f.blinks[FreeSlot(f.blinks, 0) := ZERO]
  {
    AddKeepsValidExactly(f, b);
    var g := AddStep(f, b).0;
    assert g.blinks[g.list[0]].location == b.location;
    assert g.list[..0] + g.list[1..] == f.list;
  }

  /** The event neither adds to slot `i`, nor removes it, nor copies another rhythm into it. */
  predicate Spares(f: Field, ev: Event, i: nat)
    requires ValidField(f)
  {
    match ev
    case Add(b) => true
    case Remove(location) => var k := Find(f, location, 0); k < |f.list| ==> f.list[k] != i
    case Sync(from, to) => var m := Find(f, to, 0); m < |f.list| ==> f.list[m] != i
    case Tick => true
  }

  /** A blinker that is spared changes only with ticks. */
  lemma SparedOnlyTicks(f: Field, ev: Event, i: nat)
    requires ValidField(f) && ValidEvent(ev) && i in f.list && Spares(f, ev, i)
    ensures i in Step(f, ev).list
    ensures Step(f, ev).blinks[i] == if ev.Tick? then BlinkTick(f.blinks[i]) else f.blinks[i]
  {
    match ev
    case Add(b) =>
    case Remove(location) =>
      var k := Find(f, location, 0);
      if k < |f.list| { WithoutSlot(f.list, k); }
    case Sync(from, to) =>
    case Tick => assert f.list[..|f.list|] == f.list;
  }

  predicate ValidRun(es: seq<Event>) {
    forall k :: 0 <= k < |es| ==> ValidEvent(es[k])
  }

  function Run(f: Field, es: seq<Event>): (r: Field)
    requires ValidField(f) && ValidRun(es)
    ensures ValidField(r)
  {
    if es == [] then f
    else
      var g := Run(f, es[..|es| - 1]);
      StepKeepsValid(g, es[|es| - 1]);
      Step(g, es[|es| - 1])
  }

  predicate SparedBy(f: Field, es: seq<Event>, i: nat)
    requires ValidField(f) && ValidRun(es)
  {
    es == [] || (SparedBy(f, es[..|es| - 1], i) && Spares(Run(f, es[..|es| - 1]), es[|es| - 1], i))
  }

  function TickCount(es: seq<Event>): nat {
    if es == [] then 0 else TickCount(es[..|es| - 1]) + if es[|es| - 1].Tick? then 1 else 0
  }

  /** Over any run that spares it a blinker has ticked once for every tick, whatever else happened. */
  lemma {:induction false} RunTicks(f: Field, es: seq<Event>, i: nat)
    requires ValidField(f) && ValidRun(es) && i in f.list && SparedBy(f, es, i)
    ensures i in Run(f, es).list && Run(f, es).blinks[i] == Ticks(f.blinks[i], TickCount(es))
  {
    if es != [] {
      RunTicks(f, es[..|es| - 1], i);
      SparedOnlyTicks(Run(f, es[..|es| - 1]), es[|es| - 1], i);
    }
  }

  /** From its add on, through any run that spares it, a blinker keeps time. */
  lemma AddedKeepsTime(f: Field, b: Blink, es: seq<Event>)
    requires ValidField(f) && Words(b) && b.location != 0 && ValidRun(es) && AddStep(f, b).1 == 0
    requires ValidField(AddStep(f, b).0) && SparedBy(AddStep(f, b).0, es, FreeSlot(f.blinks, 0))
    ensures var i := FreeSlot(f.blinks, 0);
            i < POOL && InPhase(Run(AddStep(f, b).0, es).blinks[i], b,
                                TickCount(es) % (Duration(b.onLength) + Duration(b.offLength)))
  {
    var g, i := AddStep(f, b).0, FreeSlot(f.blinks, 0);
    assert g.list[0] == i;
    RunTicks(g, es, i);
    TicksInPhase(b, TickCount(es));
  }

  lemma {:induction false} SameRhythmTicks(a: Blink, b: Blink, n: nat)
    requires SameRhythm(a, b)
    ensures SameRhythm(Ticks(a, n), Ticks(b, n))
  {
    if n > 0 {
      SameRhythmTicks(a, b, n - 1);
    }
  }

  /** Two synced blinkers stay together through any run that spares both. */
  lemma SyncedStayTogether(f: Field, from: nat, to: nat, es: seq<Event>)
    requires ValidField(f) && ValidRun(es) && SyncStep(f, from, to).1 == 0
    ensures var g := SyncStep(f, from, to).0;
            var i, j := f.list[Find(f, from, 0)], f.list[Find(f, to, 0)];
            ValidField(g) &&
            (SparedBy(g, es, i) && SparedBy(g, es, j) ==> SameRhythm(Run(g, es).blinks[i], Run(g, es).blinks[j]))
  {
    SyncKeepsValid(f, from, to);
    var g := SyncStep(f, from, to).0;
    var i, j := f.list[Find(f, from, 0)], f.list[Find(f, to, 0)];
    if SparedBy(g, es, i) && SparedBy(g, es, j) {
      RunTicks(g, es, i);
      RunTicks(g, es, j);
      SameRhythmTicks(g.blinks[i], g.blinks[j], TickCount(es));
    }
  }

  /** No two blinkers share a location. */
  predicate Apart(f: Field)
    requires ValidField(f)
  {
    forall k, m :: 0 <= k < m < |f.list| ==> f.blinks[f.list[k]].location != f.blinks[f.list[m]].location
  }

  /** Every blinker shows the character of its status. */
  predicate Displayed(f: Field)
    requires ValidField(f)
  {
    forall k :: 0 <= k < |f.list| ==> f.vmem[2 * f.blinks[f.list[k]].location] == CharNow(f.blinks[f.list[k]])
  }

  /** Blinkers stay apart through an accepted add exactly when its location is not taken. */
  lemma AddKeepsApartExactly(f: Field, b: Blink)
    requires ValidField(f) && Words(b) && b.location != 0 && AddStep(f, b).1 == 0 && Apart(f)
    ensures ValidField(AddStep(f, b).0)
    ensures Apart(AddStep(f, b).0) <==> Find(f, b.location, 0) == |f.list|
  {
    AddKeepsValidExactly(f, b);
    AddedNodes(f, b);
    var g, k := AddStep(f, b).0, Find(f, b.location, 0);
    if k < |f.list| {
      assert g.blinks[g.list[0]].location == g.blinks[g.list[k + 1]].location;
    } else {
      forall m, n | 0 <= m < n < |g.list| ensures g.blinks[g.list[m]].location != g.blinks[g.list[n]].location {
      }
    }
  }

  /** The list after an add: the new node in front of the old ones. */
  lemma AddedNodes(f: Field, b: Blink)
    requires ValidField(f) && Words(b) && b.location != 0 && AddStep(f, b).1 == 0
    ensures var g := AddStep(f, b).0;
            && |g.list| == |f.list| + 1 && g.list[0] < POOL && g.blinks[g.list[0]] == Fresh(b)
            && forall m :: 1 <= m < |g.list| ==>
                 g.list[m] == f.list[m - 1] && g.blinks[g.list[m]] == f.blinks[f.list[m - 1]]
  {
  }

  lemma AddKeepsDisplayed(f: Field, b: Blink)
    requires ValidField(f) && Words(b) && b.location != 0 && AddStep(f, b).1 == 0
    requires Displayed(f) && Find(f, b.location, 0) == |f.list|
    ensures ValidField(AddStep(f, b).0) && Displayed(AddStep(f, b).0)
  {
    AddKeepsValidExactly(f, b);
    AddedNodes(f, b);
  }

  /** The list after a removal: the old nodes but one. */
  lemma RemainingNodes(f: Field, location: nat)
    requires ValidField(f) && RemoveStep(f, location).1 == 0
    ensures var g, k := RemoveStep(f, location).0, Find(f, location, 0);
            && |g.list| == |f.list| - 1
            && forall m :: 0 <= m < |g.list| ==>
                 var n := if m < k then m else m + 1;
                 g.list[m] == f.list[n] && g.blinks[g.list[m]] == f.blinks[f.list[n]]
  {
  }

  lemma RemoveKeepsDisplayed(f: Field, location: nat)
    requires ValidField(f) && Apart(f) && Displayed(f)
    ensures ValidField(RemoveStep(f, location).0)
    ensures Apart(RemoveStep(f, location).0) && Displayed(RemoveStep(f, location).0)
  {
    RemoveKeepsValid(f, location);
    if RemoveStep(f, location).1 == 0 {
      RemainingNodes(f, location);
    }
  }

  /** A tick of one node leaves what the others show. */
  lemma {:induction false} TickToKeepsDisplayed(f: Field, n: nat)
    requires ValidField(f) && Apart(f) && Displayed(f) && n <= |f.list|
    ensures Apart(TickTo(f, n)) && Displayed(TickTo(f, n))
  {
    if n > 0 {
      TickToKeepsDisplayed(f, n - 1);
      TickSlotKeepsDisplayed(TickTo(f, n - 1), n - 1);
    }
  }

  lemma TickSlotKeepsDisplayed(f: Field, k: nat)
    requires ValidField(f) && Apart(f) && Displayed(f) && k < |f.list|
    ensures var g := TickSlot(f, f.list[k]); ValidField(g) ==> Apart(g) && Displayed(g)
  {
    var g := TickSlot(f, f.list[k]);
    assert forall m :: 0 <= m < |f.list| && m != k ==> f.list[m] != f.list[k];
    assert forall m :: 0 <= m < |f.list| ==> g.blinks[f.list[m]].location == f.blinks[f.list[m]].location;
  }

  /** A sync of a blinker leaves it with its right character only if that is the off character. */
  lemma SyncKeepsDisplayedExactly(f: Field, from: nat, to: nat)
    requires ValidField(f) && Apart(f) && Displayed(f) && SyncStep(f, from, to).1 == 0
    ensures ValidField(SyncStep(f, from, to).0) && Apart(SyncStep(f, from, to).0)
    ensures var i, j := f.list[Find(f, from, 0)], f.list[Find(f, to, 0)];
            Displayed(SyncStep(f, from, to).0) <==> !IsOn(f.blinks[i]) || f.blinks[j].onChar == f.blinks[j].offChar
  {
    var g, k, m := SyncStep(f, from, to).0, Find(f, from, 0), Find(f, to, 0);
    assert forall n :: 0 <= n < |f.list| && n != m ==> f.list[n] != f.list[m];
    assert forall n :: 0 <= n < |f.list| ==> g.blinks[f.list[n]].location == f.blinks[f.list[n]].location;
    assert g.vmem[2 * g.blinks[f.list[m]].location] == f.blinks[f.list[m]].offChar;
  }

  /** No sync, and every add goes to a free place. */
  predicate PlacesFree(f: Field, es: seq<Event>)
    requires ValidField(f) && ValidRun(es)
  {
    es == [] ||
    (PlacesFree(f, es[..|es| - 1]) &&
     match es[|es| - 1]
     case Add(b) => var g := Run(f, es[..|es| - 1]); Find(g, b.location, 0) == |g.list|
     case Sync(from, to) => false
     case _ => true)
  }

  /** Through every run without a sync whose adds go to free places, the screen shows every status. */
  lemma {:induction false} RunKeepsDisplayed(f: Field, es: seq<Event>)
    requires ValidField(f) && ValidRun(es) && Apart(f) && Displayed(f) && PlacesFree(f, es)
    ensures Apart(Run(f, es)) && Displayed(Run(f, es))
  {
    if es != [] {
      var g, ev := Run(f, es[..|es| - 1]), es[|es| - 1];
      RunKeepsDisplayed(f, es[..|es| - 1]);
      match ev
      case Add(b) =>
        if AddStep(g, b).1 == 0 {
          AddKeepsApartExactly(g, b);
          AddKeepsDisplayed(g, b);
        }
      case Remove(location) => RemoveKeepsDisplayed(g, location);
      case Tick => TickToKeepsDisplayed(g, |g.list|);
    }
  }
}
