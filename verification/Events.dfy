/**
 The worker threads of `src/events.c`: which of them may touch which descriptor record, and which
 variant of the record's union is stored. Steps of different workers interleave freely.
 */
module Events {
  import opened Wrappers

  type Id = nat

  datatype Kind = Listener | Client | Udp | FileTransfer | HelloTimer | CleanupTimer

  /** `union _fd_data` */
  datatype Data = Integer(n: int) | TransInfo(client: int, file: int)

  datatype Record = Record(kind: Kind, data: Data)

  datatype Status = ContinueConnection | CloseConnection | DownloadRequest | TimeoutOrBroadcast | Error

  /** A worker in `epoll_wait`, before the handler call for the head of its batch, or after it. */
  datatype Worker = Waiting | Turn(queue: seq<Id>) | Decided(status: Status, queue: seq<Id>)

  function Batch(w: Worker): seq<Id> {
    if w.Waiting? then [] else w.queue
  }

  /**
   `fault` is set by a step that reads the other variant of a union, or touches a freed record, or
   closes a descriptor that is not open.
   */
  datatype State = State(
    records: map<Id, Record>,
    armed: set<Id>,
    workers: seq<Worker>,
    closed: set<Id>,
    abandoned: set<Id>,
    open: set<int>,
    fault: bool)

  datatype Choice =
    | Wait(ready: seq<Id>)
    | Accept(client: Option<(Id, int)>, rearmed: bool)
    | Handle(status: Status, file: int)
    | Act(ok: bool)

  /** What `main_handler` can return for a record of a kind. */
  predicate Returns(kind: Kind, status: Status) {
    match kind
    case Listener => false
    case Client => !status.TimeoutOrBroadcast?
    case FileTransfer => status.ContinueConnection? || status.DownloadRequest? || status.Error?
    case Udp => status.TimeoutOrBroadcast?
    case HelloTimer => status.TimeoutOrBroadcast? || status.Error?
    case CleanupTimer => status.TimeoutOrBroadcast? || status.Error?
  }

  /** What the handlers do to the record; the flag says whether they read the variant that is there. */
  function Handled(r: Record, status: Status, file: int): (Record, bool) {
    if r.kind.Client? && status.DownloadRequest? then
      if r.data.Integer? then (Record(FileTransfer, TransInfo(r.data.n, file)), true) else (r, false)
    else if r.kind.FileTransfer? then
      if !r.data.TransInfo? then (r, false)
      else if status.ContinueConnection? then (Record(Client, Integer(r.data.client)), true)
      else (r, true)
    else (r, r.data.Integer?)
  }

  /** The descriptor in the stored union. */
  function Socket(d: Data): int {
    if d.Integer? then d.n else d.client
  }

  ghost predicate Enabled(s: State, w: nat, c: Choice) {
    && w < |s.workers|
    && match c
       case Wait(ready) =>
         && s.workers[w].Waiting? && ready != []
         && (forall i :: 0 <= i < |ready| ==> ready[i] in s.armed)
         && forall i, j :: 0 <= i < j < |ready| ==> ready[i] != ready[j]
       case Accept(client, rearmed) =>
         && s.workers[w].Turn? && s.workers[w].queue != [] && s.workers[w].queue[0] in s.records
         && s.records[s.workers[w].queue[0]].kind.Listener?
         && (client.Some? ==> client.value.0 !in s.records && client.value.1 !in s.open)
       case Handle(status, _) =>
         && s.workers[w].Turn? && s.workers[w].queue != [] && s.workers[w].queue[0] in s.records
         && Returns(s.records[s.workers[w].queue[0]].kind, status)
       case Act(ok) => s.workers[w].Decided? && s.workers[w].queue != [] && s.workers[w].queue[0] in s.records
  }

  function Rest(queue: seq<Id>): Worker
    requires queue != []
  {
    if |queue| == 1 then Waiting else Turn(queue[1..])
  }

  /** `close` and `free` of the record. */
  function Freed(s: State, id: Id, fd: int): State {
    s.(closed := s.closed + {id}, open := s.open - {fd}, fault := s.fault || fd !in s.open)
  }

  /** The switch on the handler's status; `ok` is whether `epoll_ctl` succeeds. */
  function Acted(s: State, id: Id, d: Data, status: Status, ok: bool): State {
    match status
    case ContinueConnection =>
      if !d.Integer? then s.(fault := true)
      else if ok then s.(armed := s.armed + {id})
      else Freed(s, id, d.n)
    case CloseConnection =>
      if !d.Integer? then s.(fault := true) else Freed(s, id, d.n)
    case DownloadRequest =>
      if !d.TransInfo? then s.(fault := true)
      else if ok then s.(armed := s.armed + {id})
      else Freed(s, id, d.client)
    case TimeoutOrBroadcast =>
      if !d.Integer? then s.(fault := true)
      else if ok then s.(armed := s.armed + {id})
      else s.(abandoned := s.abandoned + {id})
    case Error => s.(abandoned := s.abandoned + {id})
  }

  ghost function Next(s: State, w: nat, c: Choice): State
    requires Enabled(s, w, c)
  {
    match c
    case Wait(ready) =>
      s.(armed := s.armed - (set id | id in ready), workers := s.workers[w := Turn(ready)])
    case Accept(client, rearmed) =>
      var queue := s.workers[w].queue;
      var t := s.(workers := s.workers[w := Rest(queue)],
                  fault := s.fault || queue[0] in s.closed || !s.records[queue[0]].data.Integer?);
      var u := if client.None? then t
               else t.(records := t.records[client.value.0 := Record(Client, Integer(client.value.1))],
                       armed := t.armed + {client.value.0}, open := t.open + {client.value.1});
      if rearmed then u.(armed := u.armed + {queue[0]}) else u.(abandoned := u.abandoned + {queue[0]})
    case Handle(status, file) =>
      var queue := s.workers[w].queue;
      var (r, right) := Handled(s.records[queue[0]], status, file);
      s.(records := s.records[queue[0] := r], workers := s.workers[w := Decided(status, queue)],
         fault := s.fault || queue[0] in s.closed || !right)
    case Act(ok) =>
      var queue := s.workers[w].queue;
      var t := s.(workers := s.workers[w := Rest(queue)], fault := s.fault || queue[0] in s.closed);
      Acted(t, queue[0], s.records[queue[0]].data, s.workers[w].status, ok)
  }

  // ---------- what every step keeps

  ghost predicate Held(workers: seq<Worker>, id: Id) {
    exists w :: 0 <= w < |workers| && id in Batch(workers[w])
  }

  /** No record is in two batches, or twice in one. */
  ghost predicate Separate(workers: seq<Worker>) {
    && (forall v, w, i, j | 0 <= v < |workers| && 0 <= w < |workers|
          && 0 <= i < |Batch(workers[v])| && 0 <= j < |Batch(workers[w])| ::
          Batch(workers[v])[i] == Batch(workers[w])[j] ==> v == w && i == j)
    && (forall w :: 0 <= w < |workers| && !workers[w].Waiting? ==> workers[w].queue != [])
  }

  /** Every record is in exactly one place: armed, held by one worker, closed, or abandoned. */
  ghost predicate Placed(s: State) {
    && s.armed !! s.closed && s.armed !! s.abandoned && s.closed !! s.abandoned && Separate(s.workers)
    && (forall id :: Held(s.workers, id) ==> id !in s.armed && id !in s.closed && id !in s.abandoned)
    && (forall id :: id in s.records <==> id in s.armed || id in s.closed || id in s.abandoned || Held(s.workers, id))
  }

  /** A union holds transfer info exactly in a record of type FILE_TRANSFER. */
  ghost predicate Tagged(s: State) {
    forall id <- s.records :: s.records[id].kind.FileTransfer? <==> s.records[id].data.TransInfo?
  }

  /** The variant that the switch reads for a status. */
  ghost predicate Fits(status: Status, d: Data) {
    match status
    case DownloadRequest => d.TransInfo?
    case Error => true
    case _ => d.Integer?
  }

  /** A returned status fits the variant that is stored when it is acted on. */
  ghost predicate StatusesFit(s: State) {
    forall w :: (0 <= w < |s.workers| && s.workers[w].Decided?
                 && s.workers[w].queue != [] && s.workers[w].queue[0] in s.records) ==>
      Fits(s.workers[w].status, s.records[s.workers[w].queue[0]].data)
  }

  /** The records that are not freed own the open descriptors, one each. */
  ghost predicate Sockets(s: State) {
    && (forall id <- s.records :: id !in s.closed ==> Socket(s.records[id].data) in s.open)
    && (forall a, b | a in s.records && b in s.records && a !in s.closed && b !in s.closed ::
          Socket(s.records[a].data) == Socket(s.records[b].data) ==> a == b)
  }

  ghost predicate Inv(s: State) {
    Placed(s) && Tagged(s) && StatusesFit(s) && Sockets(s) && !s.fault
  }

  /** The head of a batch is in no other place. */
  lemma HeadIsHeld(s: State, w: nat)
    requires Placed(s) && w < |s.workers| && Batch(s.workers[w]) != []
    ensures var id := Batch(s.workers[w])[0];
      id in s.records && id !in s.armed && id !in s.closed && id !in s.abandoned
  {
    assert Held(s.workers, Batch(s.workers[w])[0]);
  }

  lemma PoppedBatches(workers: seq<Worker>, w: nat)
    requires w < |workers| && Batch(workers[w]) != []
    ensures var popped := workers[w := Rest(Batch(workers[w]))];
      Batch(popped[w]) == Batch(workers[w])[1..] && forall v :: 0 <= v < |workers| && v != w ==> popped[v] == workers[v]
  {
  }

  lemma {:induction false} PoppedSeparate(workers: seq<Worker>, w: nat)
    requires Separate(workers) && w < |workers| && Batch(workers[w]) != []
    ensures Separate(workers[w := Rest(Batch(workers[w]))])
  {
    var popped := workers[w := Rest(Batch(workers[w]))];
    PoppedBatches(workers, w);
    forall u, v, i, j
      | 0 <= u < |popped| && 0 <= v < |popped| && 0 <= i < |Batch(popped[u])| && 0 <= j < |Batch(popped[v])|
                        && Batch(popped[u])[i] == Batch(popped[v])[j]
      ensures u == v && i == j
    {
      var k, l := if u == w then i + 1 else i, if v == w then j + 1 else j;
      assert Batch(workers[u])[k] == Batch(workers[v])[l];
    }
  }

  lemma {:induction false} PopHead(workers: seq<Worker>, w: nat)
    requires Separate(workers) && w < |workers| && Batch(workers[w]) != []
    ensures var popped, head := workers[w := Rest(Batch(workers[w]))], Batch(workers[w])[0];
      Separate(popped) && forall id :: Held(popped, id) <==> Held(workers, id) && id != head
  {
    var popped, head := workers[w := Rest(Batch(workers[w]))], Batch(workers[w])[0];
    PoppedBatches(workers, w);
    PoppedSeparate(workers, w);
    forall id ensures Held(popped, id) <==> Held(workers, id) && id != head {
      if Held(popped, id) {
        var v :| 0 <= v < |popped| && id in Batch(popped[v]);
        assert id in Batch(workers[v]);
      }
      if Held(workers, id) && id != head {
        var v :| 0 <= v < |workers| && id in Batch(workers[v]);
        assert id in Batch(popped[v]);
      }
    }
  }

  lemma WaitKeeps(s: State, w: nat, ready: seq<Id>)
    requires Inv(s) && Enabled(s, w, Wait(ready))
    ensures Inv(Next(s, w, Wait(ready)))
  {
    var t := Next(s, w, Wait(ready));
    assert Batch(t.workers[w]) == ready;
    forall id ensures Held(t.workers, id) <==> Held(s.workers, id) || id in ready {
      if Held(s.workers, id) {
        var v :| 0 <= v < |s.workers| && id in Batch(s.workers[v]);
        assert id in Batch(t.workers[v]);
      }
      if id in ready {
        assert id in Batch(t.workers[w]);
      }
    }
    forall v, i | 0 <= v < |s.workers| && 0 <= i < |Batch(s.workers[v])| ensures Batch(s.workers[v])[i] !in ready {
      assert Held(s.workers, Batch(s.workers[v])[i]);
    }
  }

  /** A decision leaves the batches what they are. */
  lemma SameBatches(workers: seq<Worker>, w: nat, status: Status)
    requires w < |workers| && workers[w].Turn? && Separate(workers)
    ensures var after := workers[w := Decided(status, workers[w].queue)];
      Separate(after) && forall id :: Held(after, id) <==> Held(workers, id)
  {
    var after := workers[w := Decided(status, workers[w].queue)];
    forall v | 0 <= v < |workers| ensures Batch(after[v]) == Batch(workers[v]) {
    }
    forall id ensures Held(after, id) <==> Held(workers, id) {
      if Held(workers, id) {
        var v :| 0 <= v < |workers| && id in Batch(workers[v]);
        assert id in Batch(after[v]);
      }
    }
  }

  lemma HandleFits(s: State, w: nat, status: Status, file: int)
    requires Inv(s) && Enabled(s, w, Handle(status, file))
    ensures StatusesFit(Next(s, w, Handle(status, file)))
  {
    var t, id := Next(s, w, Handle(status, file)), s.workers[w].queue[0];
    forall v | 0 <= v < |t.workers| && v != w && t.workers[v].Decided? && t.workers[v].queue != []
      ensures t.workers[v].queue[0] != id
    {
      assert Batch(s.workers[v])[0] == Batch(s.workers[w])[0] ==> v == w;
    }
  }

  lemma {:induction false} HandleKeeps(s: State, w: nat, status: Status, file: int)
    requires Inv(s) && Enabled(s, w, Handle(status, file))
    ensures Inv(Next(s, w, Handle(status, file)))
  {
    var t, id := Next(s, w, Handle(status, file)), s.workers[w].queue[0];
    HeadIsHeld(s, w);
    assert Socket(t.records[id].data) == Socket(s.records[id].data);
    SameBatches(s.workers, w, status);
    HandleFits(s, w, status, file);
  }

  lemma {:induction false} ActKeeps(s: State, w: nat, ok: bool)
    requires Inv(s) && Enabled(s, w, Act(ok))
    ensures Inv(Next(s, w, Act(ok)))
  {
    HeadIsHeld(s, w);
    PopHead(s.workers, w);
    var queue := s.workers[w].queue;
    var t := s.(workers := s.workers[w := Rest(queue)], fault := s.fault || queue[0] in s.closed);
    assert Fits(s.workers[w].status, s.records[queue[0]].data);
    ActedKeeps(t, queue[0], s.workers[w].status, ok);
  }

  /** The switch gives the record its new place. */
  lemma ActedKeeps(t: State, id: Id, status: Status, ok: bool)
    requires t.armed !! t.closed && t.armed !! t.abandoned && t.closed !! t.abandoned && Separate(t.workers)
    requires id in t.records && id !in t.armed && id !in t.closed && id !in t.abandoned && !Held(t.workers, id)
    requires forall x :: Held(t.workers, x) ==> x !in t.armed && x !in t.closed && x !in t.abandoned
    requires forall x :: x in t.records <==>
                         x == id || x in t.armed || x in t.closed || x in t.abandoned || Held(t.workers, x)
    requires Fits(status, t.records[id].data)
    requires Tagged(t) && StatusesFit(t) && Sockets(t) && !t.fault
    ensures Inv(Acted(t, id, t.records[id].data, status, ok))
  {
    var u := Acted(t, id, t.records[id].data, status, ok);
    assert u.records == t.records && u.workers == t.workers;
  }

  lemma {:induction false} AcceptKeeps(s: State, w: nat, client: Option<(Id, int)>, rearmed: bool)
    requires Inv(s) && Enabled(s, w, Accept(client, rearmed))
    ensures Inv(Next(s, w, Accept(client, rearmed)))
  {
    HeadIsHeld(s, w);
    PopHead(s.workers, w);
    if client.Some? {
      assert !Held(s.workers, client.value.0);
    }
  }

  lemma {:induction false} StepKeeps(s: State, w: nat, c: Choice)
    requires Inv(s) && Enabled(s, w, c)
    ensures Inv(Next(s, w, c))
  {
    match c
    case Wait(ready) => WaitKeeps(s, w, ready);
    case Accept(client, rearmed) => AcceptKeeps(s, w, client, rearmed);
    case Handle(status, file) => HandleKeeps(s, w, status, file);
    case Act(ok) => ActKeeps(s, w, ok);
  }

  // ---------- whole runs

  /** After `start_node`: every record holds a descriptor of its own and is armed, no worker has an event. */
  ghost predicate Starts(s: State) {
    && s.armed == s.records.Keys && s.closed == {} && s.abandoned == {} && !s.fault
    && (forall w :: 0 <= w < |s.workers| ==> s.workers[w].Waiting?)
    && (forall id <- s.records :: s.records[id].data.Integer? && !s.records[id].kind.FileTransfer?)
    && Sockets(s)
  }

  ghost predicate RunEnabled(s: State, run: seq<(nat, Choice)>)
    decreases |run|
  {
    run != [] ==> Enabled(s, run[0].0, run[0].1) && RunEnabled(Next(s, run[0].0, run[0].1), run[1..])
  }

  ghost function Run(s: State, run: seq<(nat, Choice)>): State
    requires RunEnabled(s, run)
    decreases |run|
  {
    if run == [] then s else Run(Next(s, run[0].0, run[0].1), run[1..])
  }

  lemma {:induction false} RunKeeps(s: State, run: seq<(nat, Choice)>)
    requires RunEnabled(s, run) && Inv(s)
    ensures Inv(Run(s, run))
    decreases |run|
  {
    if run != [] {
      StepKeeps(s, run[0].0, run[0].1);
      RunKeeps(Next(s, run[0].0, run[0].1), run[1..]);
    }
  }

  lemma StartIsGood(s: State)
    requires Starts(s)
    ensures Inv(s)
  {
  }

  /**
   Over every interleaving: each record is armed, held by exactly one worker, closed or abandoned, and
   only one of these; its type is FILE_TRANSFER exactly when its union holds transfer info.
   */
  lemma OneOwner(s: State, run: seq<(nat, Choice)>, id: Id)
    requires Starts(s) && RunEnabled(s, run) && id in Run(s, run).records
    ensures var t := Run(s, run);
      && (if id in t.armed then 1 else 0) + (if id in t.closed then 1 else 0)
         + (if id in t.abandoned then 1 else 0) + (if Held(t.workers, id) then 1 else 0) == 1
      && (forall v, w | 0 <= v < |t.workers| && 0 <= w < |t.workers| ::
            id in Batch(t.workers[v]) && id in Batch(t.workers[w]) ==> v == w)
      && (t.records[id].kind.FileTransfer? <==> t.records[id].data.TransInfo?)
  {
    StartIsGood(s);
    RunKeeps(s, run);
  }

  /**
   No worker ever reads the variant of a union that is not stored, touches a record after it was
   freed, or closes a descriptor that is not open; the records that are not freed own distinct open
   descriptors.
   */
  lemma NoFault(s: State, run: seq<(nat, Choice)>)
    requires Starts(s) && RunEnabled(s, run)
    ensures !Run(s, run).fault && Sockets(Run(s, run))
  {
    StartIsGood(s);
    RunKeeps(s, run);
  }
}
