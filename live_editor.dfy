/** The sequential state of the live-reload server of src/live_editor.py: the debounced
    file-change handler feeding a bounded queue, the set of connected browser clients,
    one step of the change-processing loop, and the shutdown reset. Time is in integer
    milliseconds; clients are identified by numbers. */
module LiveEditor {

  /** A connected WebSocket client. */
  type Client = nat

  /** `asyncio.Queue(maxsize=...)` holding file paths. */
  class ChangeQueue {
    var items: seq<string>
    const maxsize: nat

    predicate Valid()
      reads this
    {
      |items| <= maxsize
    }

    constructor(maxsize: nat)
      ensures this.maxsize == maxsize && items == [] && Valid()
    {
      this.maxsize := maxsize;
      items := [];
    }

    /** `put_nowait`: appends unless the queue is full, in which case `QueueFull` is
        raised and nothing is stored. */
    method PutNowait(x: string) returns (full: bool)
      requires Valid()
      modifies this
      ensures Valid()
      ensures full <==> |old(items)| >= maxsize
      ensures items == if full then old(items) else old(items) + [x]
    {
      full := |items| >= maxsize;
      if !full {
        items := items + [x];
      }
    }

    /** `get` once an item is available. */
    method Get() returns (x: string)
      requires |items| > 0
      requires Valid()
      modifies this
      ensures Valid()
      ensures x == old(items)[0] && items == old(items)[1..]
    {
      x := items[0];
      items := items[1..];
    }

    function Empty(): bool
      reads this
    {
      items == []
    }
  }

  const QueueCapacity: nat := 100
  const DebounceDelay: int := 500

  /** A modification event: its path and the time it is handled. */
  datatype Event = Event(path: string, time: int)

  /** What `on_modified` reads and writes: `last_event_time` and the queue's contents. */
  datatype HandlerState = HandlerState(last: int, queue: seq<string>)

  /** Whether `on_modified` takes the event (lines 22-23). */
  predicate Accepts(inputFile: string, last: int, e: Event)
  {
    e.path == inputFile && e.time - last >= DebounceDelay
  }

  /** `on_modified`: on acceptance the time is recorded first, then the path is queued
      unless the queue is full. */
  function OnModifiedSpec(inputFile: string, s: HandlerState, e: Event): (r: HandlerState)
    ensures !Accepts(inputFile, s.last, e) ==> r == s
    ensures Accepts(inputFile, s.last, e) ==> r.last == e.time
    ensures |s.queue| <= QueueCapacity ==> |r.queue| <= QueueCapacity
    ensures Accepts(inputFile, s.last, e) && |s.queue| < QueueCapacity ==> r.queue == s.queue + [e.path]
    ensures Accepts(inputFile, s.last, e) && |s.queue| >= QueueCapacity ==> r.queue == s.queue
  {
    if !Accepts(inputFile, s.last, e) then s
    else if |s.queue| >= QueueCapacity then HandlerState(e.time, s.queue)
    else HandlerState(e.time, s.queue + [e.path])
  }

  /** `FileChangeHandler` */
  class FileChangeHandler {
    const queue: ChangeQueue
    const inputFile: string
    var lastEventTime: int

    constructor(queue: ChangeQueue, inputFile: string)
      ensures this.queue == queue && this.inputFile == inputFile && lastEventTime == 0
    {
      this.queue := queue;
      this.inputFile := inputFile;
      lastEventTime := 0;
    }

    method OnModified(srcPath: string, now: int)
      requires queue.Valid() && queue.maxsize == QueueCapacity
      modifies this, queue
      ensures queue.Valid()
      ensures HandlerState(lastEventTime, queue.items)
        == OnModifiedSpec(inputFile, HandlerState(old(lastEventTime), old(queue.items)), Event(srcPath, now))
    {
      if srcPath == inputFile && now - lastEventTime >= DebounceDelay {
        lastEventTime := now;
        var full := queue.PutNowait(srcPath);
      }
    }
  }

  /** The handler state after a run of events. */
  function Replay(inputFile: string, s: HandlerState, events: seq<Event>): HandlerState
    decreases |events|
  {
    if events == [] then s else Replay(inputFile, OnModifiedSpec(inputFile, s, events[0]), events[1..])
  }

  /** The times of the events the handler takes, in order. */
  function AcceptedTimes(inputFile: string, last: int, events: seq<Event>): seq<int>
    decreases |events|
  {
    if events == [] then []
    else if Accepts(inputFile, last, events[0]) then
      [events[0].time] + AcceptedTimes(inputFile, events[0].time, events[1..])
    else AcceptedTimes(inputFile, last, events[1..])
  }

  /** Debouncing: each taken event is at least the delay after the previous one (and after
      the starting time), and the queue never exceeds its capacity. */
  lemma {:induction false} DebounceSpacing(inputFile: string, s: HandlerState, events: seq<Event>)
    requires |s.queue| <= QueueCapacity
    ensures var ts := AcceptedTimes(inputFile, s.last, events);
      (ts != [] ==> ts[0] >= s.last + DebounceDelay)
      && forall i :: 0 <= i < |ts| - 1 ==> ts[i + 1] >= ts[i] + DebounceDelay
    ensures |Replay(inputFile, s, events).queue| <= QueueCapacity
    decreases |events|
  {
    if events != [] {
      var s' := OnModifiedSpec(inputFile, s, events[0]);
      DebounceSpacing(inputFile, s', events[1..]);
      if Accepts(inputFile, s.last, events[0]) {
        var rest := AcceptedTimes(inputFile, events[0].time, events[1..]);
        assert AcceptedTimes(inputFile, s.last, events) == [events[0].time] + rest;
        assert forall i :: 0 <= i < |rest| ==> ([events[0].time] + rest)[i + 1] == rest[i];
      }
    }
  }

  /** With `last_event_time` starting at 0, the first event for the watched file at a time
      of at least the delay is taken, whatever the queue holds. */
  lemma FirstEventAccepted(inputFile: string, queue: seq<string>, now: int)
    requires now >= DebounceDelay
    ensures OnModifiedSpec(inputFile, HandlerState(0, queue), Event(inputFile, now)).last == now
  {
  }

  /** A full queue drops the path but the timestamp still advances, so a second event
      within the delay is rejected. */
  lemma DroppedEventStillDebounces(inputFile: string, queue: seq<string>, last: int, t1: int, t2: int)
    requires |queue| == QueueCapacity && t1 - last >= DebounceDelay && t1 <= t2 < t1 + DebounceDelay
    ensures var s1 := OnModifiedSpec(inputFile, HandlerState(last, queue), Event(inputFile, t1));
      s1 == HandlerState(t1, queue)
      && OnModifiedSpec(inputFile, s1, Event(inputFile, t2)) == s1
  {
  }

  /** The clients whose send raised. */
  function Dead(clients: set<Client>, send: Client -> bool): (r: set<Client>)
    ensures r <= clients
  {
    set c | c in clients && !send(c)
  }

  /** Removing the dead clients keeps exactly those that were sent to. */
  lemma NotifySurvivors(clients: set<Client>, send: Client -> bool, c: Client)
    ensures c in clients - Dead(clients, send) <==> c in clients && send(c)
  {
  }

  /** The outcome of one iteration of `process_changes`. */
  datatype StepOutcome = Stopped | Converted | ConversionFailed

  /** `LiveEditor`: the client set, the running flag, the background tasks and the queue. */
  class LiveEditor {
    var clients: set<Client>
    var running: bool
    var tasks: set<nat>
    const queue: ChangeQueue

    constructor()
      ensures clients == {} && running && tasks == {}
      ensures fresh(queue) && queue.maxsize == QueueCapacity && queue.items == []
    {
      clients := {};
      running := true;
      tasks := {};
      queue := new ChangeQueue(QueueCapacity);
    }

    /** A client connecting to `/ws` (line 84). */
    method Connect(c: Client)
      modifies this
      ensures clients == old(clients) + {c}
      ensures running == old(running) && tasks == old(tasks)
    {
      clients := clients + {c};
    }

    /** The client's channel ending (line 92). */
    method Disconnect(c: Client)
      modifies this
      ensures clients == old(clients) - {c}
      ensures running == old(running) && tasks == old(tasks)
    {
      clients := clients - {c};
    }

    /** `notify_clients`: every client is sent `reload`; those whose send raises are
        collected and removed afterwards. `send` says whether a client's send succeeds. */
    method NotifyClients(send: Client -> bool) returns (attempted: set<Client>)
      modifies this
      ensures attempted == old(clients)
      ensures clients == old(clients) - Dead(old(clients), send)
      ensures running == old(running) && tasks == old(tasks)
    {
      var dead: set<Client> := {};
      attempted := {};
      var rest := clients;
      while rest != {}
        invariant rest <= clients && attempted == clients - rest
        invariant dead == Dead(attempted, send)
        decreases |rest|
      {
        var ws :| ws in rest;
        if !send(ws) {
          dead := dead + {ws};
        }
        attempted := attempted + {ws};
        rest := rest - {ws};
      }
      clients := clients - dead;
    }

    /** One iteration of `process_changes` once `get` returned: a stop flag observed after
        the dequeue ends the loop; otherwise the file is converted and, only on success,
        the clients are notified. `converted` is whether the conversion succeeded. */
    method ProcessChangesStep(converted: bool, send: Client -> bool) returns (outcome: StepOutcome)
      requires |queue.items| > 0 && queue.Valid()
      modifies this, queue
      ensures queue.Valid() && queue.items == old(queue.items)[1..]
      ensures outcome == if !old(running) then Stopped else if converted then Converted else ConversionFailed
      ensures clients == if outcome == Converted then old(clients) - Dead(old(clients), send) else old(clients)
      ensures running == old(running) && tasks == old(tasks)
    {
      var _ := queue.Get();
      if !running {
        return Stopped;
      }
      if converted {
        var _ := NotifyClients(send);
        outcome := Converted;
      } else {
        outcome := ConversionFailed;
      }
    }

    /** `on_shutdown`: stop, close every client (iterating a copy), clear the set, cancel
        and forget the tasks, and drain the queue. Returns the clients closed. */
    method OnShutdown() returns (closed: set<Client>)
      requires queue.Valid()
      modifies this, queue
      ensures !running && clients == {} && tasks == {} && queue.items == []
      ensures closed == old(clients)
      ensures queue.Valid()
    {
      running := false;
      var copy := clients;
      closed := {};
      while copy != {}
        invariant copy <= clients && closed == clients - copy
        decreases |copy|
      {
        var ws :| ws in copy;
        closed := closed + {ws};
        copy := copy - {ws};
      }
      clients := {};
      tasks := {};
      while !queue.Empty()
        invariant queue.Valid()
        modifies queue
        decreases |queue.items|
      {
        var _ := queue.Get();
      }
    }
  }
}
