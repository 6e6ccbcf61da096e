/** The commands and the tasklet of `blink.S`, over a linked list inside a static pool. */
module BlinkDriver {
  import opened Bytes
  import opened Blinkers

  /** One `struct mp1_blink_struct`; the link is the index of another slot, or -1 for NULL. */
  datatype Node = Node(blink: Blink, next: int)

  function BlinksOf(nodes: seq<Node>): (r: seq<Blink>)
    ensures |r| == |nodes| && forall i :: 0 <= i < |nodes| ==> r[i] == nodes[i].blink
  {
    seq(|nodes|, i requires 0 <= i < |nodes| => nodes[i].blink)
  }

  /** From `head` the links lead through `list`, slot by slot, and end. */
  predicate Linked(nodes: seq<Node>, head: int, list: seq<nat>) {
    && head == At(list, 0)
    && forall k :: 0 <= k < |list| ==> list[k] < |nodes| && nodes[list[k]].next == At(list, k + 1)
  }

  /** Entry `k` of the list as a pointer. */
  function At(list: seq<nat>, k: nat): int {
    if k < |list| then list[k] else NULL
  }

  /** `mp1_ioctl_add` on slots and links alone; it accepts every location on the screen, even 0. */
  function LinkIn(nodes: seq<Node>, head: int, b: Blink): (seq<Node>, int) {
    var i := FreeSlot(BlinksOf(nodes), 0);
    if b.location >= POOL || i == |nodes| then (nodes, head)
    else (nodes[i := Node(Fresh(b), head)], i)
  }

  /** Two adds at location 0 take the same slot and link it to itself: the list has no end. */
  lemma ZeroLocationLoops(nodes: seq<Node>, head: int, b1: Blink, b2: Blink)
    requires b1.location == 0 && b2.location == 0 && FreeSlot(BlinksOf(nodes), 0) < |nodes|
    ensures var once := LinkIn(nodes, head, b1);
            var twice := LinkIn(once.0, once.1, b2);
            && 0 <= twice.1 < |twice.0| && twice.0[twice.1].next == twice.1
            && forall list :: !Linked(twice.0, twice.1, list)
  {
    var i := FreeSlot(BlinksOf(nodes), 0);
    var once := LinkIn(nodes, head, b1);
    var j := FreeSlot(BlinksOf(once.0), 0);
    assert BlinksOf(once.0)[i].location == 0;
    assert forall k :: 0 <= k < i ==> BlinksOf(once.0)[k] == BlinksOf(nodes)[k];
    assert j == i;
    var twice := LinkIn(once.0, once.1, b2);
    forall list ensures !Linked(twice.0, twice.1, list) {
      if Linked(twice.0, twice.1, list) {
        LoopNeverEnds(twice.0, twice.1, list, |list|);
      }
    }
  }

  /** Along a slot that links to itself a list shows nothing but that slot, so it cannot end. */
  lemma {:induction false} LoopNeverEnds(nodes: seq<Node>, i: int, list: seq<nat>, n: nat)
    requires 0 <= i < |nodes| && nodes[i].next == i && Linked(nodes, i, list) && n <= |list|
    ensures forall k :: 0 <= k < n ==> list[k] == i
    ensures n < |list|
  {
    if n > 0 {
      LoopNeverEnds(nodes, i, list, n - 1);
      if n > 1 {
        assert nodes[list[n - 2]].next == list[n - 1];
      }
      assert list[n - 1] == i && nodes[list[n - 1]].next == i;
    }
  }

  class Machine {
    const nodes: array<Node>
    const vmem: array<Byte>
    var head: int
    ghost var list: seq<nat>

    ghost function Field(): Field
      reads this, nodes, vmem
    {
      Blinkers.Field(BlinksOf(nodes[..]), list, vmem[..])
    }

    ghost predicate Valid()
      reads this, nodes, vmem
    {
      ValidField(Field()) && Linked(nodes[..], head, list)
    }

    /** `fish` starts with a zeroed pool and an empty list. */
    constructor (screen: array<Byte>)
      requires screen.Length == 2 * POOL
      ensures Valid() && list == [] && vmem == screen && fresh(nodes)
    {
      nodes := new Node[POOL](_ => Node(ZERO, NULL));
      vmem := screen;
      head := NULL;
      list := [];
    }

    /** `mp1_malloc`; 2000 stands for its NULL. */
    method Malloc() returns (i: nat)
      requires nodes.Length == POOL
      ensures i == FreeSlot(BlinksOf(nodes[..]), 0)
    {
      i := 0;
      while i < POOL
        invariant i <= POOL && FreeSlot(BlinksOf(nodes[..]), 0) == FreeSlot(BlinksOf(nodes[..]), i)
      {
        if nodes[i].blink.location == 0 { return; }
        i := i + 1;
      }
    }

    /** `mp1_find_helper`, with the place in the list as a ghost result. */
    method FindHelper(location: nat) returns (p: int, ghost k: nat)
      requires Valid()
      ensures k == Find(Field(), location, 0) && p == At(list, Find(Field(), location, 0))
    {
      p, k := head, 0;
      while p != NULL
        invariant k <= |list| && p == At(list, k)
        invariant Find(Field(), location, 0) == Find(Field(), location, k)
        decreases |list| - k
      {
        if nodes[p].blink.location == location { return; }
        p := nodes[p].next;
        k := k + 1;
      }
    }

    method Poke(location: nat, c: Byte)
      requires 2 * location < vmem.Length
      modifies vmem
      ensures vmem[..] == Blinkers.Poke(old(vmem[..]), location, c)
    {
      vmem[2 * location] := c;
    }

    /** `mp1_ioctl_add`. */
    method Add(b: Blink) returns (r: int)
      requires Valid() && Words(b)
      modifies this, nodes, vmem
      ensures (nodes[..], head) == LinkIn(old(nodes[..]), old(head), b)
      ensures r == AddStep(old(Field()), b).1 && Field() == AddStep(old(Field()), b).0
      ensures r == -1 || b.location != 0 ==> Valid()
    {
      if b.location >= POOL { return -1; }
      var i := Malloc();
      if i == POOL { return -1; }
      ghost var was, f := nodes[..], Field();
      nodes[i] := Node(Fresh(b), head);
      assert nodes[..] == was[i := Node(Fresh(b), head)];
      assert BlinksOf(nodes[..]) == f.blinks[i := Fresh(b)];
      head := i;
      list := [i] + list;
      Poke(b.location, b.onChar);
      if b.location != 0 {
        AddKeepsValidExactly(f, b);
        StaysLinked(was, nodes[..], f.list, i);
      }
      return 0;
    }

    /** A slot outside the list can be linked in front of it. */
    lemma StaysLinked(was: seq<Node>, now: seq<Node>, l: seq<nat>, i: nat)
      requires i < |was| && i !in l && Linked(was, At(l, 0), l)
      requires |now| == |was| && now[i].next == At(l, 0)
      requires forall k :: 0 <= k < |was| && k != i ==> now[k] == was[k]
      ensures Linked(now, i, [i] + l)
    {
      var m := [i] + l;
      forall k | 0 <= k < |m| ensures m[k] < |now| && now[m[k]].next == At(m, k + 1) {
        assert k > 0 ==> m[k] == l[k - 1] && l[k - 1] in l && At(l, k) == At(m, k + 1);
      }
    }

    /** Where the link behind `prev` leads; NULL stands for the head. */
    function Following(prev: int): int
      requires prev == NULL || 0 <= prev < nodes.Length
      reads this, nodes
    {
      if prev == NULL then head else nodes[prev].next
    }

    lemma FollowingEntry(m: nat)
      requires Linked(nodes[..], head, list) && m <= |list|
      ensures var prev := if m == 0 then NULL else list[m - 1];
              (prev == NULL || prev < nodes.Length) && Following(prev) == At(list, m)
    {
    }

    lemma ValidParts()
      requires Valid()
      ensures Linked(nodes[..], head, list) && Distinct(list)
    {
    }

    /** The search of `mp1_ioctl_remove` for the link that leads to `target`. */
    method FindPrevious(target: int, ghost k: nat) returns (prev: int)
      requires Valid() && k < |list| && target == list[k]
      ensures prev == if k == 0 then NULL else list[k - 1]
    {
      hide *;
      ValidParts();
      prev := NULL;
      ghost var m: nat := 0;
      FollowingEntry(0);
      while Following(prev) != target
        invariant m <= k && prev == if m == 0 then NULL else list[m - 1]
        invariant (prev == NULL || prev < nodes.Length) && Following(prev) == At(list, m)
        decreases k - m
      {
        AtEntry(m, k);
        AtEntry(m, m);
        prev := Following(prev);
        m := m + 1;
        FollowingEntry(m);
      }
      AtEntry(m, k);
    }

    lemma AtEntry(m: nat, k: nat)
      requires Distinct(list) && m <= |list| && k < |list|
      ensures At(list, m) == list[k] <==> m == k
    {
    }

    /** `mp1_ioctl_remove`. */
    method Remove(location: nat) returns (r: int)
      requires Valid()
      modifies this, nodes
      ensures Valid()
      ensures r == RemoveStep(old(Field()), location).1 && Field() == RemoveStep(old(Field()), location).0
    {
      var p;
      ghost var k;
      p, k := FindHelper(location);
      if p == NULL { return -1; }
      ghost var f, was := Field(), nodes[..];
      var prev := FindPrevious(p, k);
      var next := nodes[p].next;
      if prev == NULL {
        head := next;
      } else {
        nodes[prev] := nodes[prev].(next := next);
      }
      // `mp1_free`
      nodes[p] := Node(ZERO, NULL);
      RemoveKeepsValid(f, location);
      list := list[..k] + list[k + 1..];
      Unlinked(was, nodes[..], f.list, k, head);
      OneBlink(was, nodes[..], p, ZERO);
      return 0;
    }

    /** When one slot gets a new blinker and the others keep theirs, links aside. */
    lemma OneBlink(was: seq<Node>, now: seq<Node>, i: nat, b: Blink)
      requires |now| == |was| && i < |was| && now[i].blink == b
      requires forall j :: 0 <= j < |was| && j != i ==> now[j].blink == was[j].blink
      ensures BlinksOf(now) == BlinksOf(was)[i := b]
    {
    }

    /** Bridging a node and clearing it leaves the rest of the list linked. */
    lemma Unlinked(was: seq<Node>, now: seq<Node>, l: seq<nat>, k: nat, h: int)
      requires Distinct(l) && Linked(was, At(l, 0), l) && k < |l| && |now| == |was|
      requires h == if k == 0 then At(l, 1) else At(l, 0)
      requires k > 0 ==> l[k - 1] < |now| && now[l[k - 1]].next == At(l, k + 1)
      requires forall i :: 0 <= i < |was| && i != l[k] && (k > 0 ==> i != l[k - 1]) ==> now[i] == was[i]
      ensures Linked(now, h, l[..k] + l[k + 1..])
    {
      hide Distinct, Linked;
      var m := l[..k] + l[k + 1..];
      Splice(l, k, 0);
      forall j | 0 <= j < |m| ensures m[j] < |now| && now[m[j]].next == At(m, j + 1) {
        Splice(l, k, j);
        Splice(l, k, j + 1);
        var i := if j < k then j else j + 1;
        LinkKept(was, now, l, k, i);
      }
      assert Linked(now, h, m) by { IsLinked(now, h, m); }
    }

    /** Every entry but the removed one leads on, past the removed one. */
    lemma LinkKept(was: seq<Node>, now: seq<Node>, l: seq<nat>, k: nat, i: nat)
      requires Distinct(l) && Linked(was, At(l, 0), l) && k < |l| && |now| == |was| && i < |l| && i != k
      requires k > 0 ==> l[k - 1] < |now| && now[l[k - 1]].next == At(l, k + 1)
      requires forall i :: 0 <= i < |was| && i != l[k] && (k > 0 ==> i != l[k - 1]) ==> now[i] == was[i]
      ensures l[i] < |now| && now[l[i]].next == At(l, if i + 1 == k then k + 1 else i + 1)
    {
      hide Distinct;
      Differ(l, i, k);
      if k > 0 { Differ(l, i, k - 1); }
    }

    lemma IsLinked(nodes: seq<Node>, h: int, l: seq<nat>)
      requires h == At(l, 0) && forall j :: 0 <= j < |l| ==> l[j] < |nodes| && nodes[l[j]].next == At(l, j + 1)
      ensures Linked(nodes, h, l)
    {
    }

    lemma Splice(l: seq<nat>, k: nat, j: nat)
      requires k < |l|
      ensures At(l[..k] + l[k + 1..], j) == At(l, if j < k then j else j + 1)
    {
      var a, b := l[..k], l[k + 1..];
      assert j < |a| ==> (a + b)[j] == a[j];
      assert |a| <= j < |a| + |b| ==> (a + b)[j] == b[j - |a|];
    }

    lemma Differ(l: seq<nat>, i: nat, k: nat)
      requires Distinct(l) && i < |l| && k < |l|
      ensures l[i] == l[k] <==> i == k
    {
    }

    /** `mp1_ioctl_sync`: the first blinker is named in the upper half of the argument. */
    method Sync(arg: nat) returns (r: int)
      requires Valid() && arg < WORD * WORD
      modifies nodes, vmem
      ensures Valid()
      ensures r == SyncStep(old(Field()), arg / WORD, arg % WORD).1
      ensures Field() == SyncStep(old(Field()), arg / WORD, arg % WORD).0
    {
      hide Linked;
      var p, q;
      ghost var k, m;
      p, k := FindHelper(arg / WORD);
      if p == NULL { return -1; }
      q, m := FindHelper(arg % WORD);
      if q == NULL { return -1; }
      ghost var f, was := Field(), nodes[..];
      nodes[q] := nodes[q].(blink := Synced(nodes[q].blink, nodes[p].blink));
      assert nodes[..] == was[q := was[q].(blink := Synced(was[q].blink, was[p].blink))];
      assert BlinksOf(nodes[..]) == f.blinks[q := Synced(f.blinks[q], f.blinks[p])];
      SyncKeepsValid(f, arg / WORD, arg % WORD);
      SameLinks(was, nodes[..], head, list);
      Poke(nodes[q].blink.location, nodes[q].blink.offChar);
      return 0;
    }

    /** `mp1_ioctl_find`: the newest blinker at a location, copied out. */
    method IoctlFind(location: nat) returns (r: int, copy: Blink)
      requires Valid()
      ensures r == -1 <==> forall i :: i in list ==> nodes[i].blink.location != location
      ensures r != -1 ==> r == 0 && copy.location == location
      ensures r != -1 ==> copy == nodes[list[Find(Field(), location, 0)]].blink
    {
      var p;
      ghost var k;
      p, k := FindHelper(location);
      if p == NULL {
        assert forall m :: 0 <= m < |list| ==> Field().blinks[list[m]].location != location;
        return -1, ZERO;
      }
      assert list[k] in list;
      return 0, nodes[p].blink;
    }

    /** The body of the tasklet loop. */
    method TickNode(p: nat)
      requires nodes.Length == POOL && vmem.Length == 2 * POOL && p < POOL && nodes[p].blink.location < POOL
      modifies nodes, vmem
      ensures Field() == TickSlot(old(Field()), p)
      ensures forall i :: 0 <= i < POOL ==> nodes[i].next == old(nodes[i].next)
    {
      ghost var f, was := Field(), nodes[..];
      var b := nodes[p].blink;
      var countdown := Decremented(b.countdown);
      if 0 < countdown < SIGN {
        nodes[p] := nodes[p].(blink := b.(countdown := countdown));
      } else if b.status % 2 == 1 {
        Poke(b.location, b.offChar);
        nodes[p] := nodes[p].(blink := b.(countdown := b.offLength, status := b.status - 1));
      } else {
        Poke(b.location, b.onChar);
        nodes[p] := nodes[p].(blink := b.(countdown := b.onLength, status := b.status + 1));
      }
      assert BlinksOf(nodes[..]) == f.blinks[p := BlinkTick(b)];
    }

    /** Ticking changes no link. */
    lemma SameLinks(was: seq<Node>, now: seq<Node>, h: int, l: seq<nat>)
      requires Linked(was, h, l) && |now| == |was| && forall i :: 0 <= i < |was| ==> now[i].next == was[i].next
      ensures Linked(now, h, l)
    {
    }

    /** `mp1_rtc_tasklet`. */
    method Tasklet()
      requires Valid()
      modifies nodes, vmem
      ensures Valid() && Field() == TickStep(old(Field()))
    {
      hide TickSlot;
      ghost var f, k := Field(), 0;
      var p := head;
      while p != NULL
        invariant k <= |list| && p == At(list, k) && Valid()
        invariant Field() == TickTo(f, k)
        decreases |list| - k
      {
        ghost var was := nodes[..];
        assert was[list[k]].next == At(list, k + 1);
        TickNode(p);
        assert forall i :: 0 <= i < POOL ==> nodes[..][i].next == was[i].next;
        SameLinks(was, nodes[..], head, list);
        assert Field() == TickTo(f, k + 1);
        p := nodes[p].next;
        k := k + 1;
      }
    }
  }
}
