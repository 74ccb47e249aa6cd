/**
 Where the records of `src/events.c` go: what has happened to a record, as far as it shows in the calls
 that the workers make, decides where it is, what kind it is and which descriptor it holds.
 */
module EventPlaces {
  import opened Wrappers
  import opened Events

  // ---------- one step

  /** The record that a worker has in hand. */
  ghost predicate InHand(s: State, w: nat, id: Id) {
    w < |s.workers| && Batch(s.workers[w]) != [] && Batch(s.workers[w])[0] == id
  }

  /** A worker acts on this record as the handler's status says, and `epoll_ctl` succeeds or not. */
  ghost predicate ActsOn(s: State, w: nat, c: Choice, id: Id, status: Status, ok: bool) {
    c == Act(ok) && InHand(s, w, id) && s.workers[w] == Decided(status, Batch(s.workers[w]))
  }

  ghost predicate Rearms(s: State, w: nat, c: Choice, id: Id) {
    || ActsOn(s, w, c, id, ContinueConnection, true)
    || ActsOn(s, w, c, id, DownloadRequest, true)
    || ActsOn(s, w, c, id, TimeoutOrBroadcast, true)
    || (c.Accept? && c.rearmed && InHand(s, w, id))
  }

  ghost predicate Closes(s: State, w: nat, c: Choice, id: Id) {
    || (exists ok :: ActsOn(s, w, c, id, CloseConnection, ok))
    || ActsOn(s, w, c, id, ContinueConnection, false)
    || ActsOn(s, w, c, id, DownloadRequest, false)
  }

  ghost predicate Abandons(s: State, w: nat, c: Choice, id: Id) {
    || (exists ok :: ActsOn(s, w, c, id, Error, ok))
    || ActsOn(s, w, c, id, TimeoutOrBroadcast, false)
    || (c.Accept? && !c.rearmed && InHand(s, w, id))
  }

  ghost predicate Takes(c: Choice, id: Id) {
    c.Wait? && id in c.ready
  }

  ghost predicate Joins(c: Choice, id: Id) {
    c.Accept? && c.client.Some? && c.client.value.0 == id
  }

  lemma {:induction false} ActPlaces(s: State, w: nat, ok: bool, id: Id)
    requires Inv(s) && Enabled(s, w, Act(ok))
    ensures var t, c := Next(s, w, Act(ok)), Act(ok);
      && (id in t.armed <==> id in s.armed || Rearms(s, w, c, id))
      && (id in t.closed <==> id in s.closed || Closes(s, w, c, id))
      && (id in t.abandoned <==> id in s.abandoned || Abandons(s, w, c, id))
  {
    var worker := s.workers[w];
    assert worker == Decided(worker.status, worker.queue) && Batch(worker) == worker.queue;
    assert ActsOn(s, w, Act(ok), worker.queue[0], worker.status, ok);
    assert Fits(worker.status, s.records[worker.queue[0]].data);
  }

  /**
   A step arms a record exactly if it re-arms it or accepted it, closes it exactly by closing the
   connection or failing to re-arm a client, abandons it exactly on an error or by failing to re-arm
   anything else, and leaves all other records where they are.
   */
  lemma {:induction false} StepPlaces(s: State, w: nat, c: Choice, id: Id)
    requires Inv(s) && Enabled(s, w, c)
    ensures var t := Next(s, w, c);
      && (id in t.armed <==> (id in s.armed && !Takes(c, id)) || Rearms(s, w, c, id) || Joins(c, id))
      && (id in t.closed <==> id in s.closed || Closes(s, w, c, id))
      && (id in t.abandoned <==> id in s.abandoned || Abandons(s, w, c, id))
      && (id in t.records <==> id in s.records || Joins(c, id))
  {
    if c.Act? {
      ActPlaces(s, w, c.ok, id);
    }
  }

  // ---------- whole runs

  datatype Place = Armed | AtWorker | Closed | Abandoned

  ghost predicate Sits(s: State, id: Id, place: Place) {
    match place
    case Armed => id in s.armed
    case AtWorker => Held(s.workers, id)
    case Closed => id in s.closed
    case Abandoned => id in s.abandoned
  }

  /** Where a step puts a record, if it moves it at all. */
  ghost function Moves(s: State, w: nat, c: Choice, id: Id): Option<Place> {
    if Rearms(s, w, c, id) || Joins(c, id) then Some(Armed)
    else if Closes(s, w, c, id) then Some(Closed)
    else if Abandons(s, w, c, id) then Some(Abandoned)
    else if Takes(c, id) then Some(AtWorker)
    else None
  }

  lemma {:induction false} OnePlace(s: State, id: Id, p: Place, q: Place)
    requires Inv(s) && Sits(s, id, p) && Sits(s, id, q)
    ensures p == q
  {
  }

  lemma {:induction false} HasPlace(s: State, id: Id)
    requires Inv(s)
    ensures id in s.records <==> exists p :: Sits(s, id, p)
  {
    assert id in s.armed ==> Sits(s, id, Armed);
    assert id in s.closed ==> Sits(s, id, Closed);
    assert id in s.abandoned ==> Sits(s, id, Abandoned);
    assert Held(s.workers, id) ==> Sits(s, id, AtWorker);
  }

  lemma {:induction false} StepMoves(s: State, w: nat, c: Choice, id: Id, p: Place)
    requires Inv(s) && Enabled(s, w, c)
    requires if Moves(s, w, c, id).Some? then Moves(s, w, c, id) == Some(p) else Sits(s, id, p)
    ensures Sits(Next(s, w, c), id, p)
  {
    var t := Next(s, w, c);
    StepKeeps(s, w, c);
    StepPlaces(s, w, c, id);
    HasPlace(s, id);
    HasPlace(t, id);
    assert Takes(c, id) ==> Sits(s, id, Armed);
    assert Held(s.workers, id) ==> Sits(s, id, AtWorker);
    if p == AtWorker {
      TakenOrKept(s, w, c, id);
    }
  }

  lemma {:induction false} TakenOrKept(s: State, w: nat, c: Choice, id: Id)
    requires Inv(s) && Enabled(s, w, c) && (Takes(c, id) || (Moves(s, w, c, id).None? && Held(s.workers, id)))
    ensures Held(Next(s, w, c).workers, id)
  {
    var t := Next(s, w, c);
    StepKeeps(s, w, c);
    StepPlaces(s, w, c, id);
    assert id in s.records && id in t.records;
    if Takes(c, id) {
      assert id in Batch(t.workers[w]);
    }
  }

  ghost predicate Untouched(s: State, run: seq<(nat, Choice)>, id: Id)
    requires RunEnabled(s, run)
    decreases |run|
  {
    run != [] ==> Moves(s, run[0].0, run[0].1, id) == None && Untouched(Next(s, run[0].0, run[0].1), run[1..], id)
  }

  lemma {:induction false} UntouchedStays(s: State, run: seq<(nat, Choice)>, id: Id, p: Place)
    requires Inv(s) && RunEnabled(s, run) && Untouched(s, run, id) && Sits(s, id, p)
    ensures Inv(Run(s, run)) && Sits(Run(s, run), id, p)
    decreases |run|
  {
    if run != [] {
      var w, c := run[0].0, run[0].1;
      StepMoves(s, w, c, id, p);
      StepKeeps(s, w, c);
      UntouchedStays(Next(s, w, c), run[1..], id, p);
    }
  }

  /** The last step that moves a record decides where it is, whatever came before and whatever the others do. */
  lemma {:induction false} LastStepDecides(start: State, before: seq<(nat, Choice)>, w: nat, c: Choice,
                                            after: seq<(nat, Choice)>, id: Id, p: Place)
    requires Starts(start) && RunEnabled(start, before)
    requires var s := Run(start, before);
      Enabled(s, w, c) && RunEnabled(Next(s, w, c), after)
      && Moves(s, w, c, id).Some? && Untouched(Next(s, w, c), after, id)
    ensures var s := Run(start, before);
      Sits(Run(Next(s, w, c), after), id, p) <==> Moves(s, w, c, id) == Some(p)
  {
    var s := Run(start, before);
    var q := Moves(s, w, c, id).value;
    StartIsGood(start);
    RunKeeps(start, before);
    StepMoves(s, w, c, id, q);
    StepKeeps(s, w, c);
    UntouchedStays(Next(s, w, c), after, id, q);
    if Sits(Run(Next(s, w, c), after), id, p) {
      OnePlace(Run(Next(s, w, c), after), id, p, q);
    }
  }

  /** A record that no step moves is where it was at the start: armed. */
  lemma {:induction false} UntouchedIsArmed(start: State, run: seq<(nat, Choice)>, id: Id, p: Place)
    requires Starts(start) && RunEnabled(start, run) && Untouched(start, run, id) && id in start.records
    ensures Sits(Run(start, run), id, p) <==> p == Armed
  {
    StartIsGood(start);
    UntouchedStays(start, run, id, Armed);
    if Sits(Run(start, run), id, p) {
      OnePlace(Run(start, run), id, p, Armed);
    }
  }

  // ---------- kinds and descriptors

  /** What a step can make of a record: a client starts a download or has finished one, and nothing else changes. */
  lemma {:induction false} StepKinds(s: State, w: nat, c: Choice, id: Id)
    requires Inv(s) && Enabled(s, w, c) && id in s.records
    ensures var t := Next(s, w, c);
      && id in t.records && Socket(t.records[id].data) == Socket(s.records[id].data)
      && t.records[id].kind ==
           if !c.Handle? || !InHand(s, w, id) then s.records[id].kind
           else if s.records[id].kind.Client? && c.status == DownloadRequest then FileTransfer
           else if s.records[id].kind.FileTransfer? && c.status == ContinueConnection then Client
           else s.records[id].kind
  {
  }

  /** An accepted client is a record of its own, armed, with the new descriptor. */
  lemma {:induction false} NewClient(s: State, w: nat, id: Id, fd: int, rearmed: bool)
    requires Inv(s) && Enabled(s, w, Accept(Some((id, fd)), rearmed))
    ensures var t := Next(s, w, Accept(Some((id, fd)), rearmed));
      && id !in s.records && t.records == s.records[id := Record(Client, Integer(fd))]
      && id in t.armed && fd in t.open && (forall listener | InHand(s, w, listener) :: listener in t.armed <==> rearmed)
  {
    HeadIsHeld(s, w);
  }

  predicate Conversing(kind: Kind) {
    kind.Client? || kind.FileTransfer?
  }

  /** Over a whole run a record keeps its descriptor, and its kind but for clients that download. */
  lemma {:induction false} RunKinds(s: State, run: seq<(nat, Choice)>, id: Id)
    requires Inv(s) && RunEnabled(s, run) && id in s.records
    ensures var t := Run(s, run);
      && id in t.records && Socket(t.records[id].data) == Socket(s.records[id].data)
      && if Conversing(s.records[id].kind) then Conversing(t.records[id].kind)
         else t.records[id].kind == s.records[id].kind
    decreases |run|
  {
    if run != [] {
      StepKinds(s, run[0].0, run[0].1, id);
      StepKeeps(s, run[0].0, run[0].1);
      RunKinds(Next(s, run[0].0, run[0].1), run[1..], id);
    }
  }

  /**
   What a worker may do next, in every reachable state: take any armed records at once; accept or fail to
   accept, re-arm or fail to; and get any answer from a handler that it can give for the kind of record.
   */
  lemma {:induction false} WorkersGoOn(s: State, w: nat)
    requires Inv(s) && w < |s.workers|
    ensures s.workers[w].Waiting? ==> forall ready: seq<Id> | ready != [] && Distinct(ready) ::
              (forall id <- ready :: id in s.armed) ==> Enabled(s, w, Wait(ready))
    ensures s.workers[w].Decided? ==> forall ok :: Enabled(s, w, Act(ok))
    ensures s.workers[w].Turn? ==> var kind := s.records[Batch(s.workers[w])[0]].kind;
      && (forall client: Option<(Id, int)>, rearmed :: Enabled(s, w, Accept(client, rearmed)) <==>
            kind == Listener && (client.Some? ==> client.value.0 !in s.records && client.value.1 !in s.open))
      && (forall status, file :: Enabled(s, w, Handle(status, file)) <==>
            || (kind == Client && status != TimeoutOrBroadcast)
            || (kind == FileTransfer && status != TimeoutOrBroadcast && status != CloseConnection)
            || (kind == Udp && status == TimeoutOrBroadcast)
            || ((kind == HelloTimer || kind == CleanupTimer) && (status == TimeoutOrBroadcast || status == Error)))
  {
    if !s.workers[w].Waiting? {
      HeadIsHeld(s, w);
    }
  }

  ghost predicate Distinct(ready: seq<Id>) {
    forall i, j :: 0 <= i < j < |ready| ==> ready[i] != ready[j]
  }
}
