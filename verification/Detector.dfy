/**
 When the failure detector is exact: conditions on the peers whose HELLOs a node receives, each
 necessary and sufficient over all the runs that go through.
 */
module Detector {
  import opened Wrappers
  import opened Bytes
  import opened AvlSpec
  import opened Peers

  // ---------- conditions on the messages alone

  ghost predicate HeardFrom(events: seq<Event>, p: Peer) {
    exists i :: 0 <= i < |events| && IsHelloOf(events[i], p)
  }

  predicate IsHelloOf(e: Event, p: Peer) {
    e.Hello? && e.peer.name == p.name && e.peer.ip == p.ip && e.peer.port == p.port
  }

  lemma {:induction false} StoredWasHeard(events: seq<Event>, self: Self)
    requires Table(events, self).Some?
    ensures forall p <- Inorder(Table(events, self).value) :: HeardFrom(events, p) && !Own(p, self)
  {
    if events != [] {
      var before, e := events[..|events| - 1], events[|events| - 1];
      var t := Table(before, self).value;
      StoredWasHeard(before, self);
      TolerancesCount(before, self);
      forall x | x in Inorder(Table(events, self).value) ensures HeardFrom(events, x) && !Own(x, self) {
        if e.Cleanup? {
          LoweredTable(t);
          ForgetsOnlyNamed(Map(t, Lower), Expired(Postorder(t)));
          var p := LoweredFrom(Inorder(t), x);
          HeardBefore(events, p);
          HeardAlike(events, p, x);
        } else if Own(e.peer, self) {
          HeardBefore(events, x);
        } else {
          HelloStores(t, e.peer.(tolerance := MAX_TOLERANCE));
          if x == e.peer.(tolerance := MAX_TOLERANCE) {
            assert IsHelloOf(events[|events| - 1], x);
          } else {
            HeardBefore(events, x);
          }
        }
      }
    }
  }

  lemma HeardBefore(events: seq<Event>, p: Peer)
    requires events != [] && HeardFrom(events[..|events| - 1], p)
    ensures HeardFrom(events, p)
  {
    var i :| 0 <= i < |events| - 1 && IsHelloOf(events[..|events| - 1][i], p);
    assert IsHelloOf(events[i], p);
  }

  lemma HeardAlike(events: seq<Event>, p: Peer, x: Peer)
    requires HeardFrom(events, p) && x.name == p.name && x.ip == p.ip && x.port == p.port
    ensures HeardFrom(events, x)
  {
    var i :| 0 <= i < |events| && IsHelloOf(events[i], p);
    assert IsHelloOf(events[i], x);
  }

  /** With `agree`, names and addresses come in the same order; without, no two addresses use one name. */
  ghost predicate NamesFit(p: Peer, q: Peer, agree: bool) {
    if agree then AddressBefore(p, q) ==> Before(p.name, q.name)
    else p.name == q.name ==> p.ip == q.ip && p.port == q.port
  }

  /** The HELLOs of other nodes fit each other; this node's own are ignored. */
  ghost predicate MessagesFit(events: seq<Event>, self: Self, agree: bool) {
    forall d, e | d in events && e in events && Foreign(d, self) && Foreign(e, self) :: NamesFit(d.peer, e.peer, agree)
  }

  predicate Foreign(e: Event, self: Self) {
    e.Hello? && !Own(e.peer, self)
  }

  lemma HeardFits(events: seq<Event>, self: Self, p: Peer, q: Peer, agree: bool)
    requires MessagesFit(events, self, agree) && !Own(p, self) && !Own(q, self)
    requires HeardFrom(events, p) && HeardFrom(events, q)
    ensures NamesFit(p, q, agree)
  {
    var i :| 0 <= i < |events| && IsHelloOf(events[i], p);
    var j :| 0 <= j < |events| && IsHelloOf(events[j], q);
    assert NamesFit(events[i].peer, events[j].peer, agree);
  }

  /** The conditions on the table follow from conditions on the messages received. */
  lemma {:induction false} FittingMessages(events: seq<Event>, self: Self, agree: bool)
    requires MessagesFit(events, self, agree)
    ensures Throughout(events, self, agree)
  {
    if events != [] {
      var before := events[..|events| - 1];
      FittingMessages(before, self, agree);
      if Table(before, self).Some? {
        var s := Inorder(Table(before, self).value);
        StoredWasHeard(before, self);
        TolerancesCount(before, self);
        forall p, q | p in s && q in s ensures NamesFit(p, q, agree) {
          HeardFits(before, self, p, q, agree);
        }
        TableFits(s, agree);
      }
    }
  }

  lemma TableFits(s: seq<Peer>, agree: bool)
    requires Sorted(s, PeerCompare) && forall p, q | p in s && q in s :: NamesFit(p, q, agree)
    ensures if agree then NamesAgree(s) else NamesUnique(s)
  {
    if agree {
      forall i, j | 0 <= i < j < |s| ensures PeerCompareNames(s[i], s[j]) < 0 {
        PeerCompareIs(s[i], s[j]);
        PeerCompareNamesIs(s[i], s[j]);
        assert NamesFit(s[i], s[j], agree);
      }
    } else {
      forall p, q | p in s && q in s && p.name == q.name ensures p == q {
        assert NamesFit(p, q, agree);
        SameKey(p, q);
        SortedKeys(s, p, q);
      }
    }
  }

  // ---------- two peers, run by run

  lemma Snoc(events: seq<Event>, e: Event, ip: cstring, port: int, self: Self)
    ensures Table(events + [e], self)
         == if Table(events, self).None? then None else StepTable(Table(events, self).value, e, self)
    ensures Since(events + [e], ip, port, self) == SinceStep(Since(events, ip, port, self), e, ip, port, self)
  {
    assert (events + [e])[..|events|] == events;
  }

  function Alone(p: Peer): Tree<Peer> {
    Node(Leaf, p, 1, 1, Leaf)
  }

  function Two(near: Peer, far: Peer): Tree<Peer> {
    Node(Leaf, near, 2, 2, Alone(far))
  }

  function Aged(p: Peer, tolerance: int): Peer {
    p.(tolerance := tolerance)
  }

  /** Two addresses in this order, neither of them this node's. */
  ghost predicate Pair(near: Peer, far: Peer, self: Self) {
    AddressBefore(near, far) && !Own(near, self) && !Own(far, self)
  }

  lemma HelloAlone(near: Peer, far: Peer, self: Self)
    requires Pair(near, far, self)
    ensures StepTable(Leaf, Hello(near), self) == Some(Alone(Aged(near, 3)))
    ensures StepTable(Alone(Aged(near, 3)), Hello(far), self) == Some(Two(Aged(near, 3), Aged(far, 3)))
  {
    var t, q := Alone(Aged(near, 3)), Aged(far, 3);
    PeerCompareIs(t.value, q);
    assert Insert(Leaf, q, PeerCompare) == Some(Alone(q));
    assert PeerCompare(t.value, q) < 0;
  }

  lemma HelloNear(near: Peer, far: Peer, i: int, j: int, self: Self)
    requires Pair(near, far, self)
    ensures StepTable(Two(Aged(near, i), Aged(far, j)), Hello(near), self) == Some(Two(Aged(near, 3), Aged(far, j)))
  {
    SameKey(Aged(near, i), Aged(near, 3));
  }

  function ExpiredOf(near: Peer, far: Peer, i: int, j: int): seq<cstring> {
    (if j == 1 then [far.name] else []) + (if i == 1 then [near.name] else [])
  }

  lemma ExpiredPair(f: Peer, n: Peer)
    ensures Expired([f, n]) == ExpiredOf(n, f, n.tolerance, f.tolerance)
  {
    assert [f, n][1..] == [n];
    assert [n][1..] == [];
    assert Expired([n]) == if n.tolerance == 1 then [n.name] else [];
  }

  lemma CleanTwo(near: Peer, far: Peer, i: int, j: int, self: Self)
    ensures StepTable(Two(Aged(near, i), Aged(far, j)), Cleanup, self)
         == Forget(Two(Aged(near, i - 1), Aged(far, j - 1)), ExpiredOf(near, far, i, j))
  {
    var f, n := Aged(far, j), Aged(near, i);
    TwoWalked(n, f);
    ExpiredPair(f, n);
  }

  lemma TwoWalked(n: Peer, f: Peer)
    ensures Map(Two(n, f), Lower) == Two(Lower(n), Lower(f)) && Postorder(Two(n, f)) == [f, n]
  {
    assert Postorder(Alone(f)) == [f];
  }

  /** Both say HELLO, then neither does for `k` cleanups. */
  function Silent(near: Peer, far: Peer, k: nat): seq<Event> {
    if k == 0 then [Hello(near)] + [Hello(far)] else Silent(near, far, k - 1) + [Cleanup]
  }

  lemma SilentStart(near: Peer, far: Peer, self: Self)
    requires Pair(near, far, self)
    ensures Table([Hello(near)] + [Hello(far)], self) == Some(Two(Aged(near, 3), Aged(far, 3)))
    ensures Since([Hello(near)] + [Hello(far)], near.ip, near.port, self) == Some(0)
    ensures Since([Hello(near)] + [Hello(far)], far.ip, far.port, self) == Some(0)
  {
    SameKey(near, far);
    HelloAlone(near, far, self);
    assert [] + [Hello(near)] == [Hello(near)];
    Snoc([], Hello(near), near.ip, near.port, self);
    Snoc([Hello(near)], Hello(far), near.ip, near.port, self);
    Snoc([Hello(near)], Hello(far), far.ip, far.port, self);
  }

  lemma QuietCleanup(near: Peer, far: Peer, i: int, self: Self)
    requires i > 1
    ensures StepTable(Two(Aged(near, i), Aged(far, i)), Cleanup, self) == Some(Two(Aged(near, i - 1), Aged(far, i - 1)))
  {
    CleanTwo(near, far, i, i, self);
    assert ExpiredOf(near, far, i, i) == [];
  }

  lemma {:induction false} SilentTable(near: Peer, far: Peer, k: nat, self: Self)
    requires Pair(near, far, self) && k <= 2
    ensures Table(Silent(near, far, k), self) == Some(Two(Aged(near, 3 - k), Aged(far, 3 - k)))
    ensures Since(Silent(near, far, k), near.ip, near.port, self) == Some(k)
    ensures Since(Silent(near, far, k), far.ip, far.port, self) == Some(k)
  {
    if k == 0 {
      SilentStart(near, far, self);
    } else {
      SilentTable(near, far, k - 1, self);
      Snoc(Silent(near, far, k - 1), Cleanup, near.ip, near.port, self);
      Snoc(Silent(near, far, k - 1), Cleanup, far.ip, far.port, self);
      QuietCleanup(near, far, 4 - k, self);
    }
  }

  /**
   If the name that comes first by address comes last by name, the second peer is out of reach of the
   search by name: it is still stored after its third silent cleanup.
   */
  lemma OutOfReach(near: Peer, far: Peer, self: Self)
    requires Pair(near, far, self) && Before(far.name, near.name)
    ensures Table(Silent(near, far, 3), self) == Some(Alone(Aged(far, 0)))
    ensures Since(Silent(near, far, 3), far.ip, far.port, self) == Some(3)
  {
    SilentTable(near, far, 2, self);
    Snoc(Silent(near, far, 2), Cleanup, far.ip, far.port, self);
    CleanTwo(near, far, 1, 1, self);
    PeerCompareNamesIs(near, far);
    MissThenFind(near, far);
  }

  lemma MissThenFind(near: Peer, far: Peer)
    requires PeerCompareNames(near, far) > 0
    ensures Forget(Two(Aged(near, 0), Aged(far, 0)), ExpiredOf(near, far, 1, 1)) == Some(Alone(Aged(far, 0)))
  {
    var t, names := Two(Aged(near, 0), Aged(far, 0)), ExpiredOf(near, far, 1, 1);
    assert Search(t, Probe(far.name), PeerCompareNames) == None;
    assert names == [far.name] + [near.name];
    assert names[1..] == [near.name];
    ForgetNear(near, far, 0, 0);
  }

  /** Looking for the name at the root of the two finds it, and takes the root away. */
  lemma ForgetNear(near: Peer, far: Peer, i: int, j: int)
    ensures Forget(Two(Aged(near, i), Aged(far, j)), [near.name]) == Some(Alone(Aged(far, j)))
  {
    var t, n := Two(Aged(near, i), Aged(far, j)), Aged(near, i);
    StrCmpIsEquality(near.name, near.name);
    SameKey(n, n);
    assert Search(t, Probe(near.name), PeerCompareNames) == Some(n);
    assert Delete(t, n, PeerCompare) == Some(Alone(Aged(far, j)));
    assert [near.name][1..] == [];
    assert Forget(Alone(Aged(far, j)), []) == Some(Alone(Aged(far, j)));
  }

  /** The first one says HELLO again after a cleanup, the second one does not. */
  function Again(near: Peer, far: Peer, k: nat): seq<Event> {
    if k == 0 then Silent(near, far, 1) + [Hello(near)] else Again(near, far, k - 1) + [Cleanup]
  }

  /**
   If both have the same name, the second one's expiry takes the first one away: it is dropped after
   two cleanups, and the expired one stays.
   */
  lemma Mistaken(near: Peer, far: Peer, self: Self)
    requires Pair(near, far, self) && near.name == far.name
    ensures Table(Again(near, far, 2), self) == Some(Alone(Aged(far, 0)))
    ensures Since(Again(near, far, 2), near.ip, near.port, self) == Some(2)
    ensures Since(Again(near, far, 2), far.ip, far.port, self) == Some(3)
  {
    SameKey(near, far);
    SilentTable(near, far, 1, self);
    forall p | p == near || p == far
      ensures Since(Again(near, far, 2), p.ip, p.port, self) == Some(if p == near then 2 else 3)
    {
      Snoc(Silent(near, far, 1), Hello(near), p.ip, p.port, self);
      Snoc(Again(near, far, 0), Cleanup, p.ip, p.port, self);
      Snoc(Again(near, far, 1), Cleanup, p.ip, p.port, self);
    }
    AgainTable(near, far, self);
  }

  lemma AgainStarts(near: Peer, far: Peer, self: Self)
    requires Pair(near, far, self)
    ensures Table(Again(near, far, 0), self) == Some(Two(Aged(near, 3), Aged(far, 2)))
  {
    SilentTable(near, far, 1, self);
    Snoc(Silent(near, far, 1), Hello(near), [], 0, self);
    HelloNear(near, far, 2, 2, self);
  }

  lemma AgainTable(near: Peer, far: Peer, self: Self)
    requires Pair(near, far, self) && near.name == far.name
    ensures Table(Again(near, far, 2), self) == Some(Alone(Aged(far, 0)))
  {
    AgainStarts(near, far, self);
    Snoc(Again(near, far, 0), Cleanup, [], 0, self);
    CleanTwo(near, far, 3, 2, self);
    assert ExpiredOf(near, far, 3, 2) == [];
    Snoc(Again(near, far, 1), Cleanup, [], 0, self);
    CleanTwo(near, far, 2, 1, self);
    ForgetNear(near, far, 1, 0);
    assert ExpiredOf(near, far, 2, 1) == [near.name];
  }

  // ---------- exactness over all runs

  /** The HELLOs of the run come from these peers, or from this node itself. */
  ghost predicate From(events: seq<Event>, peers: set<Peer>, self: Self) {
    forall e <- events :: e.Hello? ==> e.peer in peers || Own(e.peer, self)
  }

  /** The peers of other nodes. */
  ghost predicate Others(peers: set<Peer>, self: Self) {
    forall p <- peers :: !Own(p, self)
  }

  ghost predicate Live(events: seq<Event>, self: Self, ip: cstring, port: int) {
    var since := Since(events, ip, port, self);
    since.Some? && since.value < MAX_TOLERANCE
  }

  /** If the run goes through, exactly the peers heard from fewer than three cleanups ago are stored at its end. */
  ghost predicate Exact(events: seq<Event>, self: Self) {
    Table(events, self).Some? ==>
      forall ip: cstring, port: int :: Stored(Table(events, self).value, ip, port) <==> Live(events, self, ip, port)
  }

  /** If the run goes through, at least those are stored. */
  ghost predicate Patient(events: seq<Event>, self: Self) {
    Table(events, self).Some? ==>
      forall ip: cstring, port: int :: Live(events, self, ip, port) ==> Stored(Table(events, self).value, ip, port)
  }

  ghost predicate AllFit(peers: set<Peer>, agree: bool) {
    forall p, q | p in peers && q in peers :: NamesFit(p, q, agree)
  }

  lemma FitFollows(events: seq<Event>, peers: set<Peer>, self: Self, agree: bool)
    requires From(events, peers, self) && AllFit(peers, agree)
    ensures MessagesFit(events, self, agree)
  {
  }

  lemma ExactIfFit(events: seq<Event>, peers: set<Peer>, self: Self)
    requires From(events, peers, self) && AllFit(peers, true)
    ensures Exact(events, self)
  {
    FitFollows(events, peers, self, true);
    FittingMessages(events, self, true);
    if Table(events, self).Some? {
      forall ip: cstring, port: int
        ensures Stored(Table(events, self).value, ip, port) <==> Live(events, self, ip, port)
      {
        DetectorIsExact(events, self, ip, port);
      }
    }
  }

  lemma PatientIfFit(events: seq<Event>, peers: set<Peer>, self: Self)
    requires From(events, peers, self) && AllFit(peers, false)
    ensures Patient(events, self)
  {
    FitFollows(events, peers, self, false);
    FittingMessages(events, self, false);
    if Table(events, self).Some? {
      forall ip: cstring, port: int | Live(events, self, ip, port)
        ensures Stored(Table(events, self).value, ip, port)
      {
        NeverDroppedEarly(events, self, ip, port);
      }
    }
  }

  lemma {:induction false} SilentFrom(near: Peer, far: Peer, k: nat, peers: set<Peer>, self: Self)
    requires near in peers && far in peers
    ensures From(Silent(near, far, k), peers, self) && From(Again(near, far, k), peers, self)
  {
    if k > 0 {
      SilentFrom(near, far, k - 1, peers, self);
    } else {
      assert Silent(near, far, 1) == [Hello(near)] + [Hello(far)] + [Cleanup];
    }
  }

  lemma AloneStores(p: Peer)
    ensures Inorder(Alone(p)) == [p] && Stored(Alone(p), p.ip, p.port)
  {
    assert p in [p];
  }

  /** A pair out of order is a run on which the detector is not exact. */
  lemma NotExact(near: Peer, far: Peer, peers: set<Peer>, self: Self) returns (events: seq<Event>)
    requires near in peers && far in peers && Pair(near, far, self) && !Before(near.name, far.name)
    ensures From(events, peers, self) && Table(events, self).Some? && !Exact(events, self)
    ensures exists p <- Inorder(Table(events, self).value) :: p.tolerance < 1
  {
    AloneStores(Aged(far, 0));
    assert Aged(far, 0) in Inorder(Alone(Aged(far, 0)));
    PeerCompareNamesIs(near, far);
    if near.name == far.name {
      events := Again(near, far, 2);
      SilentFrom(near, far, 2, peers, self);
      Mistaken(near, far, self);
    } else {
      events := Silent(near, far, 3);
      SilentFrom(near, far, 3, peers, self);
      OutOfReach(near, far, self);
    }
    assert Stored(Table(events, self).value, far.ip, far.port) && !Live(events, self, far.ip, far.port);
  }

  /**
   For any set of other nodes: on every run that goes through and whose HELLOs come from them the table
   holds exactly the peers heard from fewer than three cleanups ago, if and only if whenever one comes
   before another by address it also comes before it by name. `DetectorRuns.WorksIff` adds when all these
   runs go through.
   */
  lemma DetectorExactIff(peers: set<Peer>, self: Self)
    requires Others(peers, self)
    ensures (forall events | From(events, peers, self) :: Exact(events, self)) <==> AllFit(peers, true)
  {
    if AllFit(peers, true) {
      forall events | From(events, peers, self) ensures Exact(events, self) {
        ExactIfFit(events, peers, self);
      }
    } else {
      var p, q :| p in peers && q in peers && !NamesFit(p, q, true);
      var events := NotExact(p, q, peers, self);
    }
  }

  /** Tolerance stays in 1..3 between the steps of every such run that goes through, under the same condition. */
  lemma TolerancePositiveIff(peers: set<Peer>, self: Self)
    requires Others(peers, self)
    ensures (forall events | From(events, peers, self) :: InRange(events, self)) <==> AllFit(peers, true)
  {
    if AllFit(peers, true) {
      forall events | From(events, peers, self) ensures InRange(events, self) {
        FitFollows(events, peers, self, true);
        FittingMessages(events, self, true);
        if Table(events, self).Some? {
          TolerancesStayPositive(events, self);
        }
      }
    } else {
      var p, q :| p in peers && q in peers && !NamesFit(p, q, true);
      var events := NotExact(p, q, peers, self);
      assert !InRange(events, self);
    }
  }

  ghost predicate InRange(events: seq<Event>, self: Self) {
    Table(events, self).Some? ==> forall p <- Inorder(Table(events, self).value) :: 1 <= p.tolerance <= MAX_TOLERANCE
  }

  /**
   And on every such run that goes through no peer is dropped before its third silent cleanup, if and
   only if no two addresses use one name.
   */
  lemma NeverEarlyIff(peers: set<Peer>, self: Self)
    requires Others(peers, self)
    ensures (forall events | From(events, peers, self) :: Patient(events, self)) <==> AllFit(peers, false)
  {
    if AllFit(peers, false) {
      forall events | From(events, peers, self) ensures Patient(events, self) {
        PatientIfFit(events, peers, self);
      }
    } else {
      var p, q :| p in peers && q in peers && !NamesFit(p, q, false);
      PeerCompareIs(p, q);
      var near, far := if PeerCompare(p, q) < 0 then p else q, if PeerCompare(p, q) < 0 then q else p;
      var events := Again(near, far, 2);
      SilentFrom(near, far, 2, peers, self);
      Mistaken(near, far, self);
      SameKey(near, far);
      AloneStores(Aged(far, 0));
      assert Live(events, self, near.ip, near.port) && !Stored(Table(events, self).value, near.ip, near.port);
    }
  }

  // ---------- two peers for which it is not

  const NEAR: Peer := Peer([2], [1], 0, 3)
  const FAR: Peer := Peer([1], [2], 0, 3)

  /** Such pairs exist: here the second peer is never forgotten. */
  lemma DisagreeingPeerStays()
    ensures var self, run := Self([], 0), Silent(NEAR, FAR, 3);
      && Pair(NEAR, FAR, self) && Before(FAR.name, NEAR.name)
      && Since(run, FAR.ip, FAR.port, self) == Some(3) && Table(run, self) == Some(Alone(Aged(FAR, 0)))
  {
    assert SmallerAt(NEAR.ip, FAR.ip, 0) && SmallerAt(FAR.name, NEAR.name, 0);
    OutOfReach(NEAR, FAR, Self([], 0));
  }
}
