/**
 When the peer table survives: every run of HELLOs and cleanups goes through, without a rotation through
 a missing child, exactly when the HELLOs come from at most six addresses. Names do not matter here.
 */
module DetectorRuns {
  import opened Wrappers
  import opened Bytes
  import opened AvlSpec
  import opened Peers
  import opened Detector
  import opened AvlExamples
  import AvlKeys
  import AvlLaws
  import AvlRuns

  type Address = (cstring, int)

  function AddressOf(p: Peer): Address {
    (p.ip, p.port)
  }

  ghost function Addresses(peers: set<Peer>): set<Address> {
    set p <- peers :: AddressOf(p)
  }

  // ---------- at most six addresses

  lemma {:induction false} DistinctAddresses(s: seq<Peer>, all: set<Address>)
    requires Sorted(s, PeerCompare) && forall p <- s :: AddressOf(p) in all
    ensures |s| <= |all|
  {
    if s != [] {
      var first := AddressOf(s[0]);
      forall p | p in s[1..] ensures AddressOf(p) in all - {first} {
        var i :| 0 <= i < |s[1..]| && s[1..][i] == p;
        assert s[i + 1] == p;
        SameKey(s[0], p);
      }
      DistinctAddresses(s[1..], all - {first});
    }
  }

  /** The table never holds more peers than there are addresses. */
  lemma {:induction false} FewStored(events: seq<Event>, peers: set<Peer>, self: Self)
    requires From(events, peers, self) && Table(events, self).Some?
    ensures Count(Table(events, self).value) <= |Addresses(peers)| && Sound(Table(events, self).value)
  {
    var s := Inorder(Table(events, self).value);
    TolerancesCount(events, self);
    StoredWasHeard(events, self);
    forall p | p in s ensures AddressOf(p) in Addresses(peers) {
      var i :| 0 <= i < |events| && IsHelloOf(events[i], p);
      assert events[i] in events && events[i].peer in peers;
    }
    DistinctAddresses(s, Addresses(peers));
    AvlLaws.CountIsLength(Table(events, self).value);
  }

  lemma {:induction false} LowForget(t: Tree<Peer>, names: seq<cstring>)
    requires HeightsExact(t) && Height(t) <= 3
    ensures Forget(t, names).Some? && Height(Forget(t, names).value) <= 3
    decreases |names|
  {
    if names != [] {
      var found := Search(t, Probe(names[0]), PeerCompareNames);
      if found.None? {
        LowForget(t, names[1..]);
      } else {
        AvlLaws.DeleteFields(t, found.value, PeerCompare, false);
        AvlRuns.LowDelete(t, found.value, PeerCompare);
        LowForget(Delete(t, found.value, PeerCompare).value, names[1..]);
      }
    }
  }

  lemma {:induction false} FewGoThrough(events: seq<Event>, peers: set<Peer>, self: Self)
    requires From(events, peers, self) && |Addresses(peers)| <= 6
    ensures Table(events, self).Some? && Height(Table(events, self).value) <= 3
  {
    if events != [] {
      var before, e := events[..|events| - 1], events[|events| - 1];
      FewGoThrough(before, peers, self);
      FewStored(before, peers, self);
      var t := Table(before, self).value;
      if e.Cleanup? {
        MapIs(t, Lower);
        LowForget(Map(t, Lower), Expired(Postorder(t)));
      } else if !Own(e.peer, self) {
        AvlRuns.LowInsert(t, e.peer.(tolerance := MAX_TOLERANCE), PeerCompare);
        FewStored(events, peers, self);
      }
    }
  }

  // ---------- seven addresses

  /** A peer as the address comparison sees it. */
  function Key(p: Peer): Peer {
    Peer([], p.ip, p.port, 0)
  }

  lemma KeyKeeps()
    ensures AvlKeys.KeepsKeys(Key, PeerCompare)
  {
    forall p: Peer ensures PeerCompare(Key(p), p) == 0 {
      SameKey(Key(p), p);
    }
  }

  /** HELLOs and cleanups that do to the table what the operations of `AvlExamples` do to a tree. */
  function EventAt(x: seq<Peer>, n: nat): Event
    requires |x| == 7
  {
    match n
    case 0 => Hello(x[2])
    case 1 => Cleanup
    case 2 => Hello(x[1])
    case 3 => Hello(x[6])
    case 4 => Cleanup
    case 5 => Hello(x[4])
    case 6 => Hello(x[3])
    case 7 => Hello(x[0])
    case 8 => Hello(x[5])
    case 9 => Cleanup
    case _ => Hello(x[0])
  }

  function FirstEvents(x: seq<Peer>, n: nat): seq<Event>
    requires |x| == 7
  {
    if n == 0 then [] else FirstEvents(x, n - 1) + [EventAt(x, n - 1)]
  }

  /** The peer with this key has tolerance `a`, the others have at least `b`. */
  ghost predicate Ages(t: Tree<Peer>, key: Peer, a: int, b: int) {
    forall p <- Inorder(t) :: if Key(p) == key then p.tolerance == a else p.tolerance >= b
  }

  /** The run leaves the table with the keys of the example's tree after `n` operations. */
  ghost predicate At(events: seq<Event>, self: Self, y: seq<Peer>, n: nat, a: int, b: int)
    requires |y| == 7
  {
    && Table(events, self).Some?
    && Map(Table(events, self).value, Key) == TreeAt(y, n) && Ages(Table(events, self).value, y[2], a, b)
  }

  lemma {:induction false} HelloAt(events: seq<Event>, v: Peer, y: seq<Peer>, n: nat, a: int, b: int, self: Self)
    requires Seven(y, PeerCompare) && n < 7 && At(events, self, y, n, a, b) && !Own(v, self)
    requires OpAt(y, n) == AvlLaws.Put(Key(v)) && if Key(v) == y[2] then a == 3 else b <= 3
    ensures At(events + [Hello(v)], self, y, n + 1, a, b)
  {
    var t, q := Table(events, self).value, v.(tolerance := MAX_TOLERANCE);
    TolerancesCount(events, self);
    PeerCompareIsOrder();
    KeyKeeps();
    AvlKeys.InsertMapped(t, q, Key, PeerCompare);
    NextStep(y, n, PeerCompare);
    Snoc(events, Hello(v), [], 0, self);
    HelloStores(t, q);
  }

  lemma {:induction false} NoneExpired(visited: seq<Peer>)
    requires forall p <- visited :: p.tolerance >= 2
    ensures Expired(visited) == []
  {
    if visited != [] {
      NoneExpired(visited[1..]);
    }
  }

  lemma {:induction false} MapTwice(t: Tree<Peer>)
    ensures Map(Map(t, Lower), Key) == Map(t, Key)
  {
    if t.Node? {
      MapTwice(t.left);
      MapTwice(t.right);
    }
  }

  lemma {:induction false} LoweredAges(t: Tree<Peer>, key: Peer, a: int, b: int)
    requires Ages(t, key, a, b)
    ensures Ages(Map(t, Lower), key, a - 1, b - 1)
  {
    MapIs(t, Lower);
    forall x | x in Inorder(Map(t, Lower))
      ensures if Key(x) == key then x.tolerance == a - 1 else x.tolerance >= b - 1
    {
      var p := LoweredFrom(Inorder(t), x);
    }
  }

  /** A cleanup that drops nobody. */
  lemma {:induction false} QuietAt(events: seq<Event>, y: seq<Peer>, n: nat, a: int, b: int, self: Self)
    requires |y| == 7 && At(events, self, y, n, a, b) && a >= 2 && b >= 2
    ensures At(events + [Cleanup], self, y, n, a - 1, b - 1)
  {
    var t := Table(events, self).value;
    forall p | p in Postorder(t) ensures p.tolerance >= 2 {
      VisitsAll(t, p);
    }
    NoneExpired(Postorder(t));
    Snoc(events, Cleanup, [], 0, self);
    MapTwice(t);
    LoweredAges(t, y[2], a, b);
  }

  lemma {:induction false} ExpiredJoin(a: seq<Peer>, b: seq<Peer>)
    ensures Expired(a + b) == Expired(a) + Expired(b)
  {
    if a == [] {
      assert [] + b == b;
    } else {
      assert (a + b)[1..] == a[1..] + b;
      ExpiredJoin(a[1..], b);
    }
  }

  /** Only the root expires. */
  lemma {:induction false} RootExpires(t: Tree<Peer>, b: int)
    requires Sound(t) && t.Node? && Ages(t, Key(t.value), 1, b) && b >= 2
    ensures Expired(Postorder(t)) == [t.value.name]
  {
    var l, r := Inorder(t.left), Inorder(t.right);
    PeerCompareIsOrder();
    AvlLaws.SortedParts(l, t.value, r, PeerCompare);
    forall p | p in Postorder(t.left) + Postorder(t.right) ensures p.tolerance >= 2 {
      VisitsAll(t.left, p);
      VisitsAll(t.right, p);
      SameKey(p, t.value);
      SameKey(t.value, p);
      assert p in Inorder(t);
    }
    NoneExpired(Postorder(t.left) + Postorder(t.right));
    ExpiredJoin(Postorder(t.left) + Postorder(t.right), [t.value]);
    assert [t.value][1..] == [];
    assert t.value in Inorder(t);
  }

  /** The cleanup that forgets the root. */
  lemma {:induction false} RootGoes(events: seq<Event>, y: seq<Peer>, b: int, self: Self)
    requires Seven(y, PeerCompare) && At(events, self, y, 7, 1, b) && b >= 2
    ensures var u := Table(events + [Cleanup], self); u.Some? && Map(u.value, Key) == TreeAt(y, 8)
  {
    var t := Table(events, self).value;
    TolerancesCount(events, self);
    assert Key(t.value) == y[2];
    RootExpires(t, b);
    Snoc(events, Cleanup, [], 0, self);
    ForgetRoot(Map(t, Lower));
    PeerCompareIsOrder();
    KeyKeeps();
    MapTwice(t);
    AvlKeys.DeleteMapped(Map(t, Lower), Lower(t.value), Key, PeerCompare);
    NextStep(y, 7, PeerCompare);
  }

  /** The search by name finds the root first. */
  lemma {:induction false} ForgetRoot(t: Tree<Peer>)
    requires t.Node?
    ensures Forget(t, [t.value.name]) == Delete(t, t.value, PeerCompare)
  {
    StrCmpIsEquality(t.value.name, t.value.name);
    assert Search(t, Probe(t.value.name), PeerCompareNames) == Some(t.value);
    assert [t.value.name][1..] == [];
  }

  /** How many operations of the example the first `n` events are, and the age of the peer at the root. */
  function OpsDone(n: nat): nat {
    if n <= 1 then n else if n <= 4 then n - 1 else n - 2
  }

  function RootTolerance(n: nat): int {
    if n <= 1 then 3 else if n <= 4 then 2 else 1
  }

  ghost function Keys(x: seq<Peer>): seq<Peer> {
    MapSeq(x, Key)
  }

  /** Seven peers of other nodes in the order of their addresses. */
  ghost predicate SevenPeers(x: seq<Peer>, self: Self) {
    Seven(x, PeerCompare) && forall p <- x :: !Own(p, self)
  }

  lemma {:induction false} KeysInOrder(x: seq<Peer>)
    requires Seven(x, PeerCompare)
    ensures Seven(Keys(x), PeerCompare)
  {
    PeerCompareIsOrder();
    KeyKeeps();
    forall i, j | 0 <= i < j < 7 ensures PeerCompare(Keys(x)[i], Keys(x)[j]) < 0 {
      AvlKeys.SameSign(Key, PeerCompare, x[i], x[j]);
    }
  }

  lemma {:induction false} OnlyOneRoot(x: seq<Peer>, i: nat)
    requires Seven(x, PeerCompare) && i < 7 && Keys(x)[i] == Keys(x)[2]
    ensures i == 2
  {
    KeysInOrder(x);
    PeerCompareIsOrder();
    InOrder(Keys(x), PeerCompare, i, 2);
    SameKey(Keys(x)[i], Keys(x)[2]);
  }

  /** Which of the seven says HELLO; none in a cleanup. */
  lemma {:induction false} WhoSpeaks(x: seq<Peer>, n: nat)
    requires |x| == 7 && n < 9 && EventAt(x, n).Hello?
    ensures n == 0 || n == 2 || n == 3 || 5 <= n
    ensures OpAt(Keys(x), OpsDone(n)) == AvlLaws.Put(Key(EventAt(x, n).peer))
    ensures OpsDone(n + 1) == OpsDone(n) + 1 && RootTolerance(n + 1) == RootTolerance(n)
    ensures EventAt(x, n).peer in x && exists i: nat :: i < 7 && EventAt(x, n).peer == x[i] && (i == 2 <==> n == 0)
  {
    var i := match n case 0 => 2 case 2 => 1 case 3 => 6 case 5 => 4 case 6 => 3 case 7 => 0 case _ => 5;
    assert EventAt(x, n).peer == x[i];
  }

  /** Where the run stands after `n` events. */
  ghost predicate Stands(x: seq<Peer>, n: nat, self: Self)
    requires |x| == 7
  {
    At(FirstEvents(x, n), self, Keys(x), OpsDone(n), RootTolerance(n), RootTolerance(n) + 1)
  }

  lemma {:induction false} Speaks(x: seq<Peer>, n: nat, self: Self)
    requires SevenPeers(x, self) && n < 9 && EventAt(x, n).Hello? && Stands(x, n, self)
    ensures Stands(x, n + 1, self)
  {
    var v, a := EventAt(x, n).peer, RootTolerance(n);
    KeysInOrder(x);
    WhoSpeaks(x, n);
    var i: nat :| i < 7 && v == x[i] && (i == 2 <==> n == 0);
    if Key(v) == Keys(x)[2] {
      OnlyOneRoot(x, i);
    }
    HelloAt(FirstEvents(x, n), v, Keys(x), OpsDone(n), a, a + 1, self);
  }

  lemma {:induction false} GrowsOlder(x: seq<Peer>, n: nat, self: Self)
    requires SevenPeers(x, self) && n < 9 && EventAt(x, n).Cleanup? && Stands(x, n, self)
    ensures Stands(x, n + 1, self)
  {
    assert n == 1 || n == 4;
    KeysInOrder(x);
    QuietAt(FirstEvents(x, n), Keys(x), OpsDone(n), RootTolerance(n), RootTolerance(n) + 1, self);
  }

  lemma {:induction false} RunsTo(x: seq<Peer>, n: nat, self: Self)
    requires SevenPeers(x, self) && n <= 9
    ensures Stands(x, n, self)
  {
    if n > 0 {
      RunsTo(x, n - 1, self);
      if EventAt(x, n - 1).Hello? {
        Speaks(x, n - 1, self);
      } else {
        GrowsOlder(x, n - 1, self);
      }
    }
  }

  /** The HELLO of a peer that is stored meets a missing child. */
  lemma {:induction false} LastHello(events: seq<Event>, v: Peer, y: seq<Peer>, self: Self)
    requires Seven(y, PeerCompare) && Key(v) == y[0] && !Own(v, self)
    requires Table(events, self).Some? && Map(Table(events, self).value, Key) == TreeAt(y, 8)
    ensures Table(events + [Hello(v)], self) == None
  {
    PeerCompareIsOrder();
    KeyKeeps();
    AvlKeys.InsertMapped(Table(events, self).value, v.(tolerance := MAX_TOLERANCE), Key, PeerCompare);
    LastStep(y, PeerCompare);
    Snoc(events, Hello(v), [], 0, self);
  }

  lemma {:induction false} SevenFail(x: seq<Peer>, self: Self)
    requires SevenPeers(x, self)
    ensures Table(FirstEvents(x, 11), self) == None
  {
    var run := FirstEvents(x, 9);
    RunsTo(x, 9, self);
    KeysInOrder(x);
    RootGoes(run, Keys(x), 2, self);
    LastHello(run + [Cleanup], x[0], Keys(x), self);
    assert FirstEvents(x, 10) == run + [Cleanup];
  }

  lemma {:induction false} FirstFrom(x: seq<Peer>, n: nat, peers: set<Peer>, self: Self)
    requires |x| == 7 && forall p <- x :: p in peers
    ensures From(FirstEvents(x, n), peers, self)
  {
    if n > 0 {
      FirstFrom(x, n - 1, peers, self);
    }
  }

  // ---------- exactly when

  lemma {:induction false} OneMoreAddress(others: set<Peer>, p: Peer)
    ensures Addresses(others + {p}) == Addresses(others) + {AddressOf(p)}
    ensures |Addresses(others + {p})| == |Addresses(others)| + if AddressOf(p) in Addresses(others) then 0 else 1
  {
    if AddressOf(p) in Addresses(others) {
      assert Addresses(others) + {AddressOf(p)} == Addresses(others);
    }
  }

  /** One peer for each address, in order. */
  lemma {:induction false} InAddressOrder(peers: set<Peer>) returns (s: seq<Peer>)
    ensures Sorted(s, PeerCompare) && |s| == |Addresses(peers)| && forall p <- s :: p in peers
  {
    if peers == {} {
      s := [];
    } else {
      var p :| p in peers;
      var rest := InAddressOrder(peers - {p});
      assert peers == peers - {p} + {p};
      OneMoreAddress(peers - {p}, p);
      s := if AddressOf(p) in Addresses(peers - {p}) then rest else PutSorted(rest, p, PeerCompare);
      LookedUp(rest, p, peers - {p});
      PeerCompareIsOrder();
      AvlLaws.PutSortedSorted(rest, p, PeerCompare);
      AvlLaws.PutSortedMembers(rest, p, PeerCompare);
      AvlLaws.PutSortedLength(rest, p, PeerCompare);
    }
  }

  lemma {:induction false} LookedUp(s: seq<Peer>, p: Peer, others: set<Peer>)
    requires forall q <- s :: q in others
    ensures Lookup(s, p, PeerCompare).Some? ==> AddressOf(p) in Addresses(others)
  {
    if Lookup(s, p, PeerCompare).Some? {
      var q := AvlRuns.LookupIsIn(s, p, PeerCompare);
      SameKey(q, p);
      assert AddressOf(q) in Addresses(others);
    }
  }

  /**
   For any set of other nodes: every run whose HELLOs come from them goes through if and only if they
   have at most six addresses.
   */
  lemma GoesThroughIff(peers: set<Peer>, self: Self)
    requires Others(peers, self)
    ensures (forall events | From(events, peers, self) :: Table(events, self).Some?) <==> |Addresses(peers)| <= 6
  {
    if |Addresses(peers)| <= 6 {
      forall events | From(events, peers, self) ensures Table(events, self).Some? {
        FewGoThrough(events, peers, self);
      }
    } else {
      var s := InAddressOrder(peers);
      var x := s[..7];
      SevenFail(x, self);
      FirstFrom(x, 11, peers, self);
    }
  }

  /** Every such run goes through and leaves an exact table, if and only if the two conditions both hold. */
  lemma WorksIff(peers: set<Peer>, self: Self)
    requires Others(peers, self)
    ensures (forall events | From(events, peers, self) :: Table(events, self).Some? && Exact(events, self))
       <==> AllFit(peers, true) && |Addresses(peers)| <= 6
  {
    GoesThroughIff(peers, self);
    DetectorExactIff(peers, self);
  }

  /** The same for the range of the tolerances. */
  lemma StaysInRangeIff(peers: set<Peer>, self: Self)
    requires Others(peers, self)
    ensures (forall events | From(events, peers, self) :: Table(events, self).Some? && InRange(events, self))
       <==> AllFit(peers, true) && |Addresses(peers)| <= 6
  {
    GoesThroughIff(peers, self);
    TolerancePositiveIff(peers, self);
  }

  /** And for never dropping a peer early, under the condition for that. */
  lemma KeepsLivePeersIff(peers: set<Peer>, self: Self)
    requires Others(peers, self)
    ensures (forall events | From(events, peers, self) :: Table(events, self).Some? && Patient(events, self))
       <==> AllFit(peers, false) && |Addresses(peers)| <= 6
  {
    GoesThroughIff(peers, self);
    NeverEarlyIff(peers, self);
  }
}
