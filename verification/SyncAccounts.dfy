/** The bookkeeping of requesters, received blocks and unhandled invalid-block events. */
module SyncAccounts {
  import opened Types
  import opened SyncChains

  /** A requester per height, with the block it received. */
  type Requesters = map<nat, Option<Block>>

  ghost function Holding(r: Requesters): set<nat> {
    set h | h in r && r[h].Some?
  }

  ghost predicate Window(r: Requesters, cur: nat, len: nat) {
    forall h: nat :: h in r <==> cur <= h < cur + len
  }

  /** Requesters are those of the first heights of the chunk; the received count and the unhandled
      events together are the blocks held; an event is about a height that holds one, once. */
  ghost predicate Balanced(r: Requesters, cur: nat, len: nat, size: nat, recv: int, events: multiset<nat>) {
    && Window(r, cur, len) && len <= size
    && recv + |events| == |Holding(r)|
    && (forall h :: h in events ==> events[h] == 1 && h in Holding(r))
  }

  lemma {:induction false} WindowSize(keys: set<nat>, cur: nat, len: nat)
    requires forall h: nat :: h in keys <==> cur <= h < cur + len
    ensures |keys| == len
    decreases len
  {
    if len > 0 {
      var last: nat := cur + len - 1;
      WindowSize(keys - {last}, cur, len - 1);
    } else {
      assert keys == {};
    }
  }

  lemma SubsetOfSameSize(a: set<nat>, b: set<nat>)
    requires a <= b && |a| >= |b|
    ensures a == b
  {
    if a != b {
      var x :| x in b && x !in a;
      assert a <= b - {x};
      SmallerSubset(a, b - {x});
    }
  }

  lemma {:induction false} SmallerSubset(a: set<nat>, b: set<nat>)
    requires a <= b
    ensures |a| <= |b|
    decreases |a|
  {
    if a != {} {
      var x :| x in a;
      SmallerSubset(a - {x}, b - {x});
    }
  }

  /** When as many blocks are counted as the chunk is long, every height has its block and no event
      is pending. */
  lemma SignalMeansFull(r: Requesters, cur: nat, len: nat, size: nat, recv: int, events: multiset<nat>)
    requires Balanced(r, cur, len, size, recv, events) && recv >= size
    ensures len == size && recv == size && events == multiset{}
    ensures forall h: nat :: cur <= h < cur + size ==> h in r && r[h].Some?
  {
    WindowSize(r.Keys, cur, len);
    SmallerSubset(Holding(r), r.Keys);
    assert |events| == 0;
    SubsetOfSameSize(Holding(r), r.Keys);
    forall h: nat | cur <= h < cur + size ensures h in r && r[h].Some? {
      assert h in r && h in Holding(r);
    }
  }

  /** The converse: a full chunk without pending events is counted in full. */
  lemma FullMeansSignal(r: Requesters, cur: nat, len: nat, size: nat, recv: int)
    requires Balanced(r, cur, len, size, recv, multiset{})
    requires forall h: nat :: cur <= h < cur + size ==> h in r && r[h].Some?
    ensures recv >= size
  {
    WindowSize(r.Keys, cur, len);
    var next: nat := cur + len;
    assert next !in r;
    assert Holding(r) == r.Keys;
  }

  lemma MakeKeepsBalance(r: Requesters, cur: nat, len: nat, size: nat, recv: int, events: multiset<nat>)
    requires Balanced(r, cur, len, size, recv, events) && len < size
    ensures Balanced(r[cur + len := None], cur, len + 1, size, recv, events)
  {
    assert Holding(r[cur + len := None]) == Holding(r);
  }

  lemma ArriveKeepsBalance(r: Requesters, cur: nat, len: nat, size: nat, recv: int, events: multiset<nat>, h: nat,
                           b: Block)
    requires Balanced(r, cur, len, size, recv, events) && h in r && r[h].None?
    ensures Balanced(r[h := Some(b)], cur, len, size, recv + 1, events)
  {
    assert Holding(r[h := Some(b)]) == Holding(r) + {h};
  }

  lemma HandleKeepsBalance(r: Requesters, cur: nat, len: nat, size: nat, recv: int, events: multiset<nat>, h: nat)
    requires Balanced(r, cur, len, size, recv, events) && h in events
    ensures h in r && Balanced(r[h := None], cur, len, size, recv, events - multiset{h})
  {
    assert Holding(r[h := None]) == Holding(r) - {h};
    assert |events - multiset{h}| == |events| - 1;
  }

  /** Reporting a height as invalid keeps the balance exactly when a block is held there. */
  lemma ReportKeepsBalanceIff(r: Requesters, cur: nat, len: nat, size: nat, recv: int, events: multiset<nat>, h: nat)
    requires Balanced(r, cur, len, size, recv, events) && h !in events
    ensures Balanced(r, cur, len, size, recv - 1, events + multiset{h}) <==> h in Holding(r)
  {
    var next := events + multiset{h};
    assert |next| == |events| + 1 && h in next;
  }

  lemma EmptyIsBalanced(cur: nat, size: nat)
    ensures Balanced(map[], cur, 0, size, 0, multiset{})
  {
    assert Holding(map[]) == {};
  }

  /** The failing case: a held block whose header names a height outside the chunk is reported. */
  lemma ForeignHeightUnbalances()
    ensures var r: Requesters := map[5 := Some(Block(Header(9, "p", "r", "h"), []))];
            Balanced(r, 5, 1, 1, 1, multiset{}) && !Balanced(r, 5, 1, 1, 0, multiset{9})
  {
    var r: Requesters := map[5 := Some(Block(Header(9, "p", "r", "h"), []))];
    assert Holding(r) == {5};
    ReportKeepsBalanceIff(r, 5, 1, 1, 1, multiset{}, 9);
    assert multiset{} + multiset{9} == multiset{9};
  }

  /** What arrivals and event handling work on. */
  datatype Books = Books(requesters: Requesters, recv: int, events: multiset<nat>) {
    predicate Waiting(h: nat) {
      h in requesters && requesters[h].None?
    }

    /** Data that no requester waits for is dropped. */
    function Arrive(h: nat, data: Block): Books {
      if Waiting(h) then Books(requesters[h := Some(data)], recv + 1, events) else this
    }

    /** An event about a height without a requester does nothing. */
    function Handle(h: nat): Books {
      Books(if h in requesters then requesters[h := None] else requesters, recv, events - multiset{h})
    }

    function Report(h: nat): Books {
      Books(requesters, recv - 1, events + multiset{h})
    }
  }

  /** What can happen while a chunk is awaited. */
  datatype Happening = Arrival(height: nat, data: Block) | Event(height: nat)

  ghost function After(b: Books, s: Happening): Books {
    match s
    case Arrival(h, data) => b.Arrive(h, data)
    case Event(h) => if h in b.events then b.Handle(h) else b
  }

  /** An arrival that is taken and brings the count up to the size asks for the chunk to be processed. */
  ghost predicate SignalsAt(b: Books, size: nat, s: Happening) {
    s.Arrival? && b.Waiting(s.height) && b.recv + 1 >= size
  }

  ghost predicate Signals(b: Books, size: nat, steps: seq<Happening>)
    decreases |steps|
  {
    steps != [] && (SignalsAt(b, size, steps[0]) || Signals(After(b, steps[0]), size, steps[1..]))
  }

  /** Every height has its block, yet the count is short, and no event is about a height of the chunk. */
  ghost predicate Stuck(b: Books, size: nat) {
    && b.recv < size && (forall h :: h in b.requesters ==> b.requesters[h].Some?)
    && (forall h :: h in b.events ==> h !in b.requesters)
  }

  lemma StuckStays(b: Books, size: nat, s: Happening)
    requires Stuck(b, size)
    ensures !SignalsAt(b, size, s) && Stuck(After(b, s), size)
  {
  }

  lemma {:induction false} StuckForever(b: Books, size: nat, steps: seq<Happening>)
    requires Stuck(b, size)
    ensures !Signals(b, size, steps)
    decreases |steps|
  {
    if steps != [] {
      StuckStays(b, size, steps[0]);
      StuckForever(After(b, steps[0]), size, steps[1..]);
    }
  }

  /** A full chunk is waited for, one block is reported. */
  ghost predicate Full(b: Books, cur: nat, size: nat) {
    && Window(b.requesters, cur, size) && (forall h :: h in b.requesters ==> b.requesters[h].Some?)
    && b.recv == size && b.events == multiset{}
  }

  /** Nothing that can still happen makes the chunk be processed. */
  ghost predicate Hangs(b: Books, size: nat) {
    forall steps :: !Signals(b, size, steps)
  }

  lemma Resumes(b: Books, size: nat, h: nat, data: Block)
    requires h in b.requesters && h in b.events && b.recv + 1 >= size
    ensures !Hangs(b, size)
  {
    var steps := [Event(h), Arrival(h, data)];
    var mid := After(b, steps[0]);
    assert SignalsAt(mid, size, steps[1]);
    assert Signals(mid, size, steps[1..]);
    assert Signals(b, size, steps);
  }

  /** After the report of a height the sync hangs, whatever arrives and whatever is handled, exactly
      when the height is not one of the chunk's. */
  lemma HangsIff(b: Books, cur: nat, size: nat, height: nat)
    requires Full(b, cur, size)
    ensures Hangs(b.Report(height), size) <==> !(cur <= height < cur + size)
  {
    var next := b.Report(height);
    if cur <= height < cur + size {
      Resumes(next, size, height, Block(Header(height, "", "", ""), []));
    } else {
      forall steps ensures !Signals(next, size, steps) {
        StuckForever(next, size, steps);
      }
    }
  }
}
