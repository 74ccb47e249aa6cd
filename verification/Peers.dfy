/**
 The failure detector of `src/server.c` over the peer table: a HELLO stores its sender with full
 tolerance, a cleanup lowers every tolerance and forgets, by name, the peers that reached zero.
 */
module Peers {
  import opened Wrappers
  import opened Bytes
  import opened AvlSpec
  import AvlLaws
  import AvlHeap

  const MAX_TOLERANCE: int := 3

  datatype Peer = Peer(name: cstring, ip: cstring, port: int, tolerance: int)

  // ---------- the two orders

  /** `strcmp` */
  function StrCmp(a: bytes, b: bytes): int {
    if a == [] && b == [] then 0
    else if a == [] then -1
    else if b == [] then 1
    else if a[0] != b[0] then a[0] - b[0]
    else StrCmp(a[1..], b[1..])
  }

  function PeerCompare(p: Peer, q: Peer): int {
    var r := StrCmp(p.ip, q.ip);
    if r == 0 then
      if p.port == q.port then 0 else if p.port < q.port then -1 else 1
    else if r < 0 then -1
    else 1
  }

  function PeerCompareNames(p: Peer, q: Peer): int {
    StrCmp(p.name, q.name)
  }

  lemma {:induction false} StrCmpIsEquality(a: bytes, b: bytes)
    ensures StrCmp(a, b) == 0 <==> a == b
  {
    if a != [] && b != [] {
      StrCmpIsEquality(a[1..], b[1..]);
      assert a == [a[0]] + a[1..] && b == [b[0]] + b[1..];
    }
  }

  lemma {:induction false} StrCmpIsOrder(a: bytes, b: bytes, c: bytes)
    ensures OrderLaw(StrCmp, a, b, c)
    ensures StrCmp(a, b) <= 0 && StrCmp(b, c) <= 0 && StrCmp(a, c) == 0 ==> StrCmp(a, b) == 0 && StrCmp(b, c) == 0
  {
    if a != [] {
      StrCmpIsOrder(a[1..], if b == [] then [] else b[1..], if c == [] then [] else c[1..]);
    }
  }

  /** `strcmp` is the order of a dictionary. */
  lemma {:induction false} StrCmpIs(a: bytes, b: bytes)
    ensures StrCmp(a, b) < 0 <==> Before(a, b)
    ensures StrCmp(a, b) == 0 <==> a == b
    ensures StrCmp(a, b) > 0 <==> Before(b, a)
  {
    if a != [] && b != [] {
      BeforeTail(a, b);
      BeforeTail(b, a);
      StrCmpIs(a[1..], b[1..]);
      assert a == [a[0]] + a[1..] && b == [b[0]] + b[1..];
    } else {
      assert a == [] ==> a == b[..|a|];
      assert b == [] ==> b == a[..|b|];
    }
  }

  /** By address: by IP address, and at one IP address by port. */
  ghost predicate AddressBefore(p: Peer, q: Peer) {
    Before(p.ip, q.ip) || (p.ip == q.ip && p.port < q.port)
  }

  /** Which order `peer_compare` is. */
  lemma {:induction false} PeerCompareIs(p: Peer, q: Peer)
    ensures PeerCompare(p, q) < 0 <==> Before(p.ip, q.ip) || (p.ip == q.ip && p.port < q.port)
    ensures PeerCompare(p, q) == 0 <==> p.ip == q.ip && p.port == q.port
    ensures PeerCompare(p, q) > 0 <==> Before(q.ip, p.ip) || (p.ip == q.ip && q.port < p.port)
  {
    StrCmpIs(p.ip, q.ip);
    StrCmpIs(q.ip, p.ip);
  }

  /** And `peer_compare_names`. */
  lemma {:induction false} PeerCompareNamesIs(p: Peer, q: Peer)
    ensures PeerCompareNames(p, q) < 0 <==> Before(p.name, q.name)
    ensures PeerCompareNames(p, q) == 0 <==> p.name == q.name
    ensures PeerCompareNames(p, q) > 0 <==> Before(q.name, p.name)
  {
    StrCmpIs(p.name, q.name);
  }

  lemma {:induction false} PeerCompareLaw(a: Peer, b: Peer, c: Peer)
    ensures OrderLaw(PeerCompare, a, b, c)
  {
    StrCmpIsOrder(a.ip, b.ip, c.ip);
    StrCmpIsEquality(a.ip, b.ip);
    StrCmpIsEquality(b.ip, c.ip);
    StrCmpIsEquality(a.ip, c.ip);
    StrCmpIsEquality(a.ip, a.ip);
    StrCmpIsEquality(b.ip, a.ip);
  }

  lemma PeerCompareIsOrder()
    ensures TotalOrder(PeerCompare)
  {
    forall a: Peer, b: Peer, c: Peer ensures OrderLaw(PeerCompare, a, b, c) {
      PeerCompareLaw(a, b, c);
    }
  }

  lemma PeerCompareNamesIsOrder()
    ensures TotalOrder(PeerCompareNames)
  {
    forall a: Peer, b: Peer, c: Peer ensures OrderLaw(PeerCompareNames, a, b, c) {
      StrCmpIsOrder(a.name, b.name, c.name);
    }
  }

  lemma SameKey(p: Peer, q: Peer)
    ensures PeerCompare(p, q) == 0 <==> p.ip == q.ip && p.port == q.port
  {
    StrCmpIsEquality(p.ip, q.ip);
  }

  // ---------- the steps

  datatype Event = Hello(peer: Peer) | Cleanup

  /** Where this node itself listens; its own HELLO comes back by broadcast and is ignored. */
  datatype Self = Self(ip: cstring, port: int)

  predicate Own(p: Peer, self: Self) {
    p.ip == self.ip && p.port == self.port
  }

  function Lower(p: Peer): Peer {
    p.(tolerance := p.tolerance - 1)
  }

  /** The names that `substract_tolerance` adds, in the order of the visits. */
  function Expired(visited: seq<Peer>): seq<cstring> {
    if visited == [] then []
    else if visited[0].tolerance - 1 == 0 then [visited[0].name] + Expired(visited[1..])
    else Expired(visited[1..])
  }

  function Probe(name: cstring): Peer {
    Peer(name, [], 0, 0)
  }

  /** `forget_peers` for each of the names. */
  function Forget(t: Tree<Peer>, names: seq<cstring>): Option<Tree<Peer>>
    decreases |names|
  {
    if names == [] then Some(t)
    else
      match Search(t, Probe(names[0]), PeerCompareNames)
      case None => Forget(t, names[1..])
      case Some(found) =>
        match Delete(t, found, PeerCompare)
        case None => None
        case Some(rest) => Forget(rest, names[1..])
  }

  function StepTable(t: Tree<Peer>, e: Event, self: Self): Option<Tree<Peer>> {
    match e
    case Hello(p) =>
      if Own(p, self) then Some(t)
      else Insert(t, p.(tolerance := MAX_TOLERANCE), PeerCompare)
    case Cleanup => Forget(Map(t, Lower), Expired(Postorder(t)))
  }

  /** The table after a run; None if an insert met a missing child. */
  function Table(events: seq<Event>, self: Self): Option<Tree<Peer>> {
    if events == [] then Some(Leaf)
    else
      match Table(events[..|events| - 1], self)
      case None => None
      case Some(t) => StepTable(t, events[|events| - 1], self)
  }

  // ---------- trees under these steps

  lemma {:induction false} SearchHits<V>(t: Tree<V>, v: V, cmp: (V, V) -> int)
    requires Search(t, v, cmp).Some?
    ensures Search(t, v, cmp).value in Inorder(t) && cmp(Search(t, v, cmp).value, v) == 0
  {
    if cmp(t.value, v) > 0 {
      SearchHits(t.left, v, cmp);
    } else if cmp(t.value, v) < 0 {
      SearchHits(t.right, v, cmp);
    }
  }

  function MapSeq<V>(s: seq<V>, f: V -> V): (r: seq<V>)
    ensures |r| == |s| && forall i :: 0 <= i < |s| ==> r[i] == f(s[i])
  {
    if s == [] then [] else [f(s[0])] + MapSeq(s[1..], f)
  }

  lemma MapSeqThree<V>(a: seq<V>, x: V, b: seq<V>, f: V -> V)
    ensures MapSeq(a + [x] + b, f) == MapSeq(a, f) + [f(x)] + MapSeq(b, f)
  {
  }

  lemma {:induction false} MapIs<V>(t: Tree<V>, f: V -> V)
    ensures Inorder(Map(t, f)) == MapSeq(Inorder(t), f)
    ensures Height(Map(t, f)) == Height(t) && (HeightsExact(t) ==> HeightsExact(Map(t, f)))
  {
    if t.Node? {
      MapIs(t.left, f);
      MapIs(t.right, f);
      MapSeqThree(Inorder(t.left), t.value, Inorder(t.right), f);
    }
  }

  lemma {:induction false} VisitsAll<V>(t: Tree<V>, x: V)
    ensures x in Postorder(t) <==> x in Inorder(t)
  {
    if t.Node? {
      VisitsAll(t.left, x);
      VisitsAll(t.right, x);
    }
  }

  lemma {:induction false} ExpiredAre(visited: seq<Peer>, name: cstring)
    ensures name in Expired(visited) <==> exists p <- visited :: p.tolerance == 1 && p.name == name
  {
    if visited != [] {
      ExpiredAre(visited[1..], name);
      assert forall p :: p in visited <==> p == visited[0] || p in visited[1..];
    }
  }

  /** Two peers of a sorted table with the same address are the same. */
  lemma {:induction false} SortedKeys(s: seq<Peer>, p: Peer, q: Peer)
    requires Sorted(s, PeerCompare) && p in s && q in s && PeerCompare(p, q) == 0
    ensures p == q
  {
    var i :| 0 <= i < |s| && s[i] == p;
    var j :| 0 <= j < |s| && s[j] == q;
    PeerCompareLaw(p, q, p);
    PeerCompareLaw(q, p, q);
  }

  lemma {:induction false} WithoutKeepsSorted<V>(s: seq<V>, v: V, cmp: (V, V) -> int, order: (V, V) -> int)
    requires Sorted(s, order)
    ensures Sorted(Without(s, v, cmp), order)
    ensures forall x <- Without(s, v, cmp) :: x in s
  {
    if s != [] {
      WithoutKeepsSorted(s[1..], v, cmp, order);
      var r := Without(s[1..], v, cmp);
      forall j | 0 <= j < |r| ensures order(s[0], r[j]) < 0 {
        assert r[j] in r;
        var k :| 0 <= k < |s[1..]| && s[1..][k] == r[j];
        assert s[k + 1] == r[j];
      }
    }
  }

  /** The table is a search tree whose heights are exact. */
  ghost predicate Sound(t: Tree<Peer>) {
    HeightsExact(t) && Ordered(t, PeerCompare)
  }

  lemma {:induction false} DeleteFound(t: Tree<Peer>, p: Peer)
    requires Sound(t) && p in Inorder(t)
    ensures Delete(t, p, PeerCompare).Some? && Sound(Delete(t, p, PeerCompare).value)
    ensures Inorder(Delete(t, p, PeerCompare).value) == Without(Inorder(t), p, PeerCompare)
    ensures forall x :: x in Inorder(Delete(t, p, PeerCompare).value) <==> x in Inorder(t) && x != p
  {
    PeerCompareIsOrder();
    AvlLaws.DeleteFields(t, p, PeerCompare, false);
    AvlLaws.DeleteContent(t, p, PeerCompare);
    AvlLaws.WithoutLaws(Inorder(t), p, PeerCompare);
    forall x ensures x in Without(Inorder(t), p, PeerCompare) <==> x in Inorder(t) && x != p {
      if x in Inorder(t) && PeerCompare(x, p) == 0 {
        SortedKeys(Inorder(t), x, p);
      }
      PeerCompareLaw(p, p, p);
    }
  }

  /** Forgetting takes away only peers that are named, whatever the shape of the tree. */
  lemma {:induction false} ForgetsOnlyNamed(t: Tree<Peer>, names: seq<cstring>)
    requires Sound(t)
    ensures Forget(t, names).Some? && Sound(Forget(t, names).value)
    ensures forall x :: x in Inorder(Forget(t, names).value) ==> x in Inorder(t)
    ensures forall x :: x in Inorder(t) && x.name !in names ==> x in Inorder(Forget(t, names).value)
    decreases |names|
  {
    if names != [] {
      var found := Search(t, Probe(names[0]), PeerCompareNames);
      if found.None? {
        ForgetsOnlyNamed(t, names[1..]);
      } else {
        SearchHits(t, Probe(names[0]), PeerCompareNames);
        StrCmpIsEquality(found.value.name, names[0]);
        DeleteFound(t, found.value);
        ForgetsOnlyNamed(Delete(t, found.value, PeerCompare).value, names[1..]);
      }
    }
  }

  /** The order of names agrees with the order of addresses, so that a search by name finds its way. */
  ghost predicate NamesAgree(s: seq<Peer>) {
    Sorted(s, PeerCompareNames)
  }

  ghost predicate NamesUnique(s: seq<Peer>) {
    forall p, q | p in s && q in s && p.name == q.name :: p == q
  }

  lemma {:induction false} AgreeIsUnique(s: seq<Peer>)
    requires NamesAgree(s)
    ensures NamesUnique(s)
  {
    forall p, q | p in s && q in s && p.name == q.name ensures p == q {
      var i :| 0 <= i < |s| && s[i] == p;
      var j :| 0 <= j < |s| && s[j] == q;
      StrCmpIsEquality(p.name, q.name);
      StrCmpIsEquality(q.name, p.name);
    }
  }

  lemma {:induction false} LookupMisses<V>(s: seq<V>, v: V, cmp: (V, V) -> int)
    requires Lookup(s, v, cmp).None?
    ensures forall x <- s :: cmp(x, v) != 0
  {
    if s != [] {
      LookupMisses(s[1..], v, cmp);
    }
  }

  /** If the orders agree, forgetting takes away all the named peers. */
  lemma {:induction false} ForgetsAllNamed(t: Tree<Peer>, names: seq<cstring>)
    requires Sound(t) && NamesAgree(Inorder(t))
    ensures Forget(t, names).Some?
    ensures forall x :: x in Inorder(Forget(t, names).value) ==> x in Inorder(t) && x.name !in names
    decreases |names|
  {
    if names != [] {
      var probe := Probe(names[0]);
      PeerCompareNamesIsOrder();
      AvlLaws.SearchIsLookup(t, probe, PeerCompareNames);
      var found := Search(t, probe, PeerCompareNames);
      if found.None? {
        LookupMisses(Inorder(t), probe, PeerCompareNames);
        StrCmpIsEquality(names[0], names[0]);
        ForgetsAllNamed(t, names[1..]);
      } else {
        SearchHits(t, probe, PeerCompareNames);
        StrCmpIsEquality(found.value.name, names[0]);
        AgreeIsUnique(Inorder(t));
        DeleteFound(t, found.value);
        WithoutKeepsSorted(Inorder(t), found.value, PeerCompare, PeerCompareNames);
        ForgetsAllNamed(Delete(t, found.value, PeerCompare).value, names[1..]);
      }
    }
  }

  // ---------- one step

  lemma {:induction false} LoweredSorted(s: seq<Peer>)
    ensures Sorted(s, PeerCompare) ==> Sorted(MapSeq(s, Lower), PeerCompare)
    ensures NamesAgree(s) ==> NamesAgree(MapSeq(s, Lower))
  {
    var r := MapSeq(s, Lower);
    forall i, j | 0 <= i < j < |s|
      ensures PeerCompare(r[i], r[j]) == PeerCompare(s[i], s[j])
      ensures PeerCompareNames(r[i], r[j]) == PeerCompareNames(s[i], s[j])
    {
      assert r[i] == Lower(s[i]) && r[j] == Lower(s[j]);
    }
  }

  lemma LoweredHas(s: seq<Peer>, p: Peer)
    requires p in s
    ensures Lower(p) in MapSeq(s, Lower)
  {
    var i :| 0 <= i < |s| && s[i] == p;
    assert MapSeq(s, Lower)[i] == Lower(p);
  }

  lemma LoweredFrom(s: seq<Peer>, x: Peer) returns (p: Peer)
    requires x in MapSeq(s, Lower)
    ensures p in s && x == Lower(p)
  {
    var i :| 0 <= i < |s| && MapSeq(s, Lower)[i] == x;
    p := s[i];
  }

  lemma {:induction false} LoweredTable(t: Tree<Peer>)
    requires Sound(t)
    ensures Sound(Map(t, Lower)) && Inorder(Map(t, Lower)) == MapSeq(Inorder(t), Lower)
    ensures NamesAgree(Inorder(t)) ==> NamesAgree(Inorder(Map(t, Lower)))
  {
    MapIs(t, Lower);
    LoweredSorted(Inorder(t));
  }

  /** A HELLO puts its sender in the table, in place of what was stored under that address. */
  lemma HelloStores(t: Tree<Peer>, q: Peer)
    requires Sound(t) && Insert(t, q, PeerCompare).Some?
    ensures Sound(Insert(t, q, PeerCompare).value)
    ensures forall x :: x in Inorder(Insert(t, q, PeerCompare).value) <==>
              x == q || (x in Inorder(t) && PeerCompare(x, q) != 0)
  {
    PeerCompareIsOrder();
    AvlLaws.InsertContent(t, q, PeerCompare);
    AvlLaws.InsertFields(t, q, PeerCompare, false);
    AvlLaws.PutSortedMembers(Inorder(t), q, PeerCompare);
    var r := Inorder(Insert(t, q, PeerCompare).value);
    forall x | x in r && x != q ensures PeerCompare(x, q) != 0 {
      if PeerCompare(x, q) == 0 {
        SortedKeys(r, x, q);
      }
    }
  }

  // ---------- whole runs

  /** How many cleanups there were since the last HELLO from that address; None if there was none. */
  function Since(events: seq<Event>, ip: cstring, port: int, self: Self): Option<nat> {
    if events == [] then None
    else SinceStep(Since(events[..|events| - 1], ip, port, self), events[|events| - 1], ip, port, self)
  }

  function SinceStep(before: Option<nat>, e: Event, ip: cstring, port: int, self: Self): Option<nat> {
    match e
    case Hello(p) => if p.ip == ip && p.port == port && !Own(p, self) then Some(0) else before
    case Cleanup => if before.None? then None else Some(before.value + 1)
  }

  ghost predicate Counted(p: Peer, events: seq<Event>, self: Self) {
    var since := Since(events, p.ip, p.port, self);
    since.Some? && p.tolerance == MAX_TOLERANCE - since.value
  }

  /**
   Over every run a stored peer's tolerance is 3 minus the cleanups since its last HELLO. A run can
   only be cut short by an insert: forgetting never meets a missing child.
   */
  lemma {:induction false} TolerancesCount(events: seq<Event>, self: Self)
    requires Table(events, self).Some?
    ensures Sound(Table(events, self).value)
    ensures forall p <- Inorder(Table(events, self).value) :: Counted(p, events, self)
  {
    if events != [] {
      var before, e := events[..|events| - 1], events[|events| - 1];
      TolerancesCount(before, self);
      var t := Table(before, self).value;
      if e.Cleanup? {
        LoweredTable(t);
        ForgetsOnlyNamed(Map(t, Lower), Expired(Postorder(t)));
        forall x | x in Inorder(Table(events, self).value) ensures Counted(x, events, self) {
          var p := LoweredFrom(Inorder(t), x);
          assert Counted(p, before, self);
        }
      } else if Own(e.peer, self) {
      } else {
        var q := e.peer.(tolerance := MAX_TOLERANCE);
        HelloStores(t, q);
        forall p | p in Inorder(Table(events, self).value) ensures Counted(p, events, self) {
          SameKey(p, q);
        }
      }
    }
  }

  /** Every cleanup of the run finds a table with unique names, or one whose names agree with the addresses. */
  ghost predicate Throughout(events: seq<Event>, self: Self, agree: bool) {
    events != [] ==>
      var before := events[..|events| - 1];
      && Throughout(before, self, agree)
      && (events[|events| - 1].Cleanup? && Table(before, self).Some? ==>
            var s := Inorder(Table(before, self).value);
            if agree then NamesAgree(s) else NamesUnique(s))
  }

  lemma {:induction false} AgreeingIsUnique(events: seq<Event>, self: Self)
    requires Throughout(events, self, true)
    ensures Throughout(events, self, false)
  {
    if events != [] {
      var before := events[..|events| - 1];
      AgreeingIsUnique(before, self);
      if Table(before, self).Some? && events[|events| - 1].Cleanup? {
        AgreeIsUnique(Inorder(Table(before, self).value));
      }
    }
  }

  ghost predicate Stored(t: Tree<Peer>, ip: cstring, port: int) {
    exists p <- Inorder(t) :: p.ip == ip && p.port == port
  }

  lemma NotExpired(t: Tree<Peer>, p: Peer)
    requires NamesUnique(Inorder(t)) && p in Inorder(t) && p.tolerance != 1
    ensures p.name !in Expired(Postorder(t))
  {
    ExpiredAre(Postorder(t), p.name);
    forall q | q in Postorder(t) && q.tolerance == 1 ensures q.name != p.name {
      VisitsAll(t, q);
    }
  }

  lemma {:induction false} CleanupKeeps(t: Tree<Peer>, p: Peer, self: Self)
    requires Sound(t) && NamesUnique(Inorder(t)) && p in Inorder(t) && p.tolerance != 1
    ensures StepTable(t, Cleanup, self).Some? && Lower(p) in Inorder(StepTable(t, Cleanup, self).value)
  {
    var lowered, names := Map(t, Lower), Expired(Postorder(t));
    NotExpired(t, p);
    LoweredTable(t);
    LoweredHas(Inorder(t), p);
    ForgetsOnlyNamed(lowered, names);
    assert StepTable(t, Cleanup, self) == Forget(lowered, names);
  }

  /** With unique names no peer is dropped before the third cleanup after its last HELLO. */
  lemma {:induction false} NeverDroppedEarly(events: seq<Event>, self: Self, ip: cstring, port: int)
    requires Table(events, self).Some? && Throughout(events, self, false)
    requires Since(events, ip, port, self).Some? && Since(events, ip, port, self).value < MAX_TOLERANCE
    ensures Stored(Table(events, self).value, ip, port)
  {
    var before, e := events[..|events| - 1], events[|events| - 1];
    var t := Table(before, self).value;
    TolerancesCount(before, self);
    if e.Cleanup? {
      NeverDroppedEarly(before, self, ip, port);
      var p :| p in Inorder(t) && p.ip == ip && p.port == port;
      assert Counted(p, before, self);
      CleanupKeeps(t, p, self);
      assert Lower(p) in Inorder(Table(events, self).value);
    } else if Own(e.peer, self) {
      NeverDroppedEarly(before, self, ip, port);
    } else {
      var q := e.peer.(tolerance := MAX_TOLERANCE);
      HelloStores(t, q);
      if e.peer.ip == ip && e.peer.port == port {
        assert q in Inorder(Table(events, self).value);
      } else {
        NeverDroppedEarly(before, self, ip, port);
        var p :| p in Inorder(t) && p.ip == ip && p.port == port;
        SameKey(p, q);
        assert p in Inorder(Table(events, self).value);
      }
    }
  }

  /** If the orders agree, tolerance stays in 1..3 between steps: all expired peers go. */
  lemma {:induction false} TolerancesStayPositive(events: seq<Event>, self: Self)
    requires Table(events, self).Some? && Throughout(events, self, true)
    ensures forall p <- Inorder(Table(events, self).value) :: 1 <= p.tolerance <= MAX_TOLERANCE
  {
    if events != [] {
      var before, e := events[..|events| - 1], events[|events| - 1];
      var t := Table(before, self).value;
      TolerancesStayPositive(before, self);
      TolerancesCount(before, self);
      if e.Cleanup? {
        var names := Expired(Postorder(t));
        LoweredTable(t);
        ForgetsAllNamed(Map(t, Lower), names);
        forall x | x in Inorder(Table(events, self).value) ensures 1 <= x.tolerance <= MAX_TOLERANCE {
          var p := LoweredFrom(Inorder(t), x);
          VisitsAll(t, p);
          ExpiredAre(Postorder(t), p.name);
        }
      } else if !Own(e.peer, self) {
        HelloStores(t, e.peer.(tolerance := MAX_TOLERANCE));
      }
    }
  }

  /** Then the table holds exactly the peers heard from fewer than three cleanups ago. */
  lemma DetectorIsExact(events: seq<Event>, self: Self, ip: cstring, port: int)
    requires Table(events, self).Some? && Throughout(events, self, true)
    ensures Stored(Table(events, self).value, ip, port)
       <==> Since(events, ip, port, self).Some? && Since(events, ip, port, self).value < MAX_TOLERANCE
  {
    TolerancesCount(events, self);
    TolerancesStayPositive(events, self);
    AgreeingIsUnique(events, self);
    if Since(events, ip, port, self).Some? && Since(events, ip, port, self).value < MAX_TOLERANCE {
      NeverDroppedEarly(events, self, ip, port);
    }
  }

  // ---------- the handlers

  class PeerTable {
    const peers: AvlHeap.AVL<Peer>
    const self: Self

    ghost predicate Valid()
      reads peers, peers.root, AvlHeap.ReprOf(peers.root)
    {
      peers.Valid() && peers.cmp == PeerCompare && Sound(peers.Contents())
    }

    constructor (self: Self)
      ensures Valid() && this.self == self && fresh(peers) && peers.Contents() == Leaf
    {
      this.self := self;
      peers := new AvlHeap.AVL(PeerCompare);
    }

    /** The `HELLO` branch of `main_handler`. */
    method ReceiveHello(name: cstring, ip: cstring, port: int)
      requires Valid() && StepTable(peers.Contents(), Hello(Peer(name, ip, port, 0)), self).Some?
      modifies peers, AvlHeap.ReprOf(peers.root)
      ensures Valid()
      ensures Some(peers.Contents()) == StepTable(old(peers.Contents()), Hello(Peer(name, ip, port, 0)), self)
    {
      if ip == self.ip && port == self.port {
        return;
      }
      var p := Peer(name, ip, port, MAX_TOLERANCE);
      HelloStores(peers.Contents(), p);
      peers.Insert(p);
    }

    /** `concurrent_avl_map` with `substract_tolerance`: lowers every tolerance, collects who reached zero. */
    method SubtractTolerance() returns (forget: seq<cstring>)
      requires Valid()
      modifies peers, AvlHeap.ReprOf(peers.root)
      ensures Valid() && AvlHeap.ReprOf(peers.root) == old(AvlHeap.ReprOf(peers.root))
      ensures peers.Contents() == Map(old(peers.Contents()), Lower)
      ensures forget == Expired(Postorder(old(peers.Contents())))
    {
      LoweredTable(peers.Contents());
      var visited := peers.Map(Lower);
      forget := CollectExpired(visited);
    }

    /** The `CLEANUP_TIMEOUT` branch: one pass lowers and collects, a second one forgets. */
    method CleanUp()
      requires Valid()
      modifies peers, AvlHeap.ReprOf(peers.root)
      ensures Valid() && Some(peers.Contents()) == StepTable(old(peers.Contents()), Cleanup, self)
    {
      var forget := SubtractTolerance();
      ForgetPeers(forget);
    }

    method ForgetPeers(names: seq<cstring>)
      requires Valid()
      modifies peers, AvlHeap.ReprOf(peers.root)
      ensures Valid() && Some(peers.Contents()) == Forget(old(peers.Contents()), names)
    {
      var i := 0;
      while i < |names|
        invariant i <= |names| && Valid() && AvlHeap.ReprOf(peers.root) <= old(AvlHeap.ReprOf(peers.root))
        invariant Forget(peers.Contents(), names[i..]) == Forget(old(peers.Contents()), names)
      {
        ForgetPeer(names, i);
        i := i + 1;
      }
    }

    /** `forget_peers`, for the name at `i`. */
    method ForgetPeer(names: seq<cstring>, i: nat)
      requires Valid() && i < |names|
      modifies peers, AvlHeap.ReprOf(peers.root)
      ensures Valid() && AvlHeap.ReprOf(peers.root) <= old(AvlHeap.ReprOf(peers.root))
      ensures Forget(peers.Contents(), names[i + 1..]) == Forget(old(peers.Contents()), names[i..])
    {
      var found := peers.SearchBy(Probe(names[i]), PeerCompareNames);
      if found.Some? {
        SearchHits(peers.Contents(), Probe(names[i]), PeerCompareNames);
        DeleteFound(peers.Contents(), found.value);
        peers.Delete(found.value);
      }
    }
  }

  method CollectExpired(visited: seq<Peer>) returns (forget: seq<cstring>)
    ensures forget == Expired(visited)
  {
    forget := [];
    var i := 0;
    while i < |visited|
      invariant i <= |visited| && forget + Expired(visited[i..]) == Expired(visited)
    {
      if visited[i].tolerance - 1 == 0 {
        forget := forget + [visited[i].name];
      }
      i := i + 1;
    }
  }
}
