/** The simulated network link: one worker serves the submitted transfers one at a time, in order.
    Clock readings and the lengths of sleeps are inputs; times are reals. */
module LinkSimulator {

  function Max(a: real, b: real): real { if a < b then b else a }

  function Min(a: real, b: real): real { if a < b then a else b }

  /** The link's constants after clamping. */
  datatype Net = Net(bandwidth: real, fixedLatencyMs: real, efficiency: real) {
    predicate Valid() { bandwidth >= 1.0 && fixedLatencyMs >= 0.0 && 0.01 <= efficiency <= 1.0 }

    function Rate(): (r: real)
      ensures r >= 1.0
    {
      Max(1.0, bandwidth * efficiency)
    }

    /** How long the link is taken by a payload. */
    function Seconds(payload: nat): real { fixedLatencyMs / 1000.0 + payload as real / Rate() }
  }

  function Clamped(bandwidthMbS: real, fixedLatencyMs: real, efficiency: real): (n: Net)
    ensures n.Valid()
  {
    Net(Max(1.0, bandwidthMbS * 1024.0 * 1024.0), Max(0.0, fixedLatencyMs), Min(1.0, Max(0.01, efficiency)))
  }

  /** The link moves at least one byte a second, and what was asked for where that is more. The efficiency is the
      nearest between a hundredth and one. */
  lemma ClampedMeaning(bandwidthMbS: real, fixedLatencyMs: real, efficiency: real)
    ensures var net := Clamped(bandwidthMbS, fixedLatencyMs, efficiency);
      && net.bandwidth == (if bandwidthMbS * 1_048_576.0 >= 1.0 then bandwidthMbS * 1_048_576.0 else 1.0)
      && net.fixedLatencyMs == (if fixedLatencyMs >= 0.0 then fixedLatencyMs else 0.0)
      && (0.01 <= efficiency <= 1.0 ==> net.efficiency == efficiency)
      && (efficiency < 0.01 ==> net.efficiency == 0.01)
      && (efficiency > 1.0 ==> net.efficiency == 1.0)
  {
  }

  // ----- one service -----

  /** What the worker records about a transfer. */
  datatype Service = Service(payload: nat, ready: real, start: real, ack: real, queueMs: real, transferMs: real, totalMs: real)

  function Serve(net: Net, payload: nat, ready: real, start: real): Service {
    var ack := start + net.Seconds(payload);
    Service(payload, ready, start, ack,
            Max(0.0, start - ready) * 1000.0, net.Seconds(payload) * 1000.0, Max(0.0, ack - ready) * 1000.0)
  }

  lemma SecondsNonNegative(net: Net, payload: nat)
    requires net.Valid()
    ensures net.Seconds(payload) >= 0.0
    ensures net.Seconds(payload) == 0.0 <==> net.fixedLatencyMs == 0.0 && payload == 0
  {
    var x, r := payload as real, net.Rate();
    assert x / r * r == x;
  }

  /** The latency apart, a service moves its payload at the bandwidth times the efficiency, or at one byte a second
      where that is more. The record counts in milliseconds, and no delay is negative. */
  lemma ServiceMeaning(net: Net, payload: nat, ready: real, start: real)
    requires net.Valid()
    ensures var s := Serve(net, payload, ready, start);
      var moving := s.ack - s.start - net.fixedLatencyMs / 1000.0;
      && s.payload == payload && s.ready == ready && s.start == start
      && (net.bandwidth * net.efficiency >= 1.0 ==> moving * (net.bandwidth * net.efficiency) == payload as real)
      && (net.bandwidth * net.efficiency < 1.0 ==> moving == payload as real)
      && s.transferMs == 1000.0 * (s.ack - s.start)
      && s.queueMs == (if start >= ready then 1000.0 * (start - ready) else 0.0)
      && s.totalMs == (if s.ack >= ready then 1000.0 * (s.ack - ready) else 0.0)
  {
    Divides(payload as real, net.Rate());
  }

  lemma Divides(x: real, rate: real)
    requires rate >= 1.0
    ensures x / rate * rate == x && (rate == 1.0 ==> x / rate == x)
  {
  }

  /** Queueing and transfer add up to the total exactly when the worker did not start before the
      payload was ready, or the transfer takes no time. */
  lemma Accounting(net: Net, payload: nat, ready: real, start: real)
    requires net.Valid()
    ensures var s := Serve(net, payload, ready, start);
      && s.queueMs >= 0.0 && s.transferMs >= 0.0 && 0.0 <= s.totalMs <= s.queueMs + s.transferMs
      && (s.totalMs == s.queueMs + s.transferMs <==> start >= ready || (net.fixedLatencyMs == 0.0 && payload == 0))
  {
    SecondsNonNegative(net, payload);
  }

  // ----- a schedule -----

  /** One service after the other: none starts before the previous one was acknowledged. */
  ghost predicate Serial(net: Net, log: seq<Service>)
    decreases |log|
  {
    log == [] ||
    var front, last := log[..|log| - 1], log[|log| - 1];
    && Serial(net, front)
    && last == Serve(net, last.payload, last.ready, last.start)
    && (front != [] ==> front[|front| - 1].ack <= last.start)
  }

  /** In a serial schedule service windows do not overlap. */
  lemma {:induction false} SerialWindows(net: Net, log: seq<Service>, i: nat, j: nat)
    requires net.Valid() && Serial(net, log) && i < j < |log|
    ensures log[i].start <= log[i].ack <= log[j].start <= log[j].ack
    decreases |log|
  {
    var front := log[..|log| - 1];
    SecondsNonNegative(net, log[|log| - 1].payload);
    if j < |front| {
      SerialWindows(net, front, i, j);
    } else if i < |front| - 1 {
      SerialWindows(net, front, i, |front| - 1);
    } else {
      LastWindow(net, front);
    }
  }

  lemma LastWindow(net: Net, log: seq<Service>)
    requires net.Valid() && Serial(net, log) && log != []
    ensures log[|log| - 1].start <= log[|log| - 1].ack
  {
    SecondsNonNegative(net, log[|log| - 1].payload);
  }

  // ----- runs of the worker -----

  /** One turn of the worker: the task it finds, how long it waited for it, how long it took to read the
      clock again after recording the service, and by how much its sleep overran. */
  datatype Turn = Turn(payload: nat, ready: real, idle: real, busy: real, overrun: real) {
    /** The clock does not run backwards and a sleep lasts at least as long as asked. */
    predicate Forward() { idle >= 0.0 && busy >= 0.0 && overrun >= 0.0 }
  }

  datatype Worker = Worker(clock: real, log: seq<Service>)

  /** The time when the worker goes on: it sleeps only for what remains until the acknowledgement. */
  function Slept(ack: real, now: real, overrun: real): real {
    var remain := ack - now;
    if remain > 0.0 then now + remain + overrun else now
  }

  /** A turn ends no earlier than its acknowledgement exactly when its sleep was not cut short or was not
      needed. */
  lemma SleepCovers(ack: real, now: real, overrun: real)
    ensures Slept(ack, now, overrun) >= ack <==> overrun >= 0.0 || now >= ack
  {
  }

  function Turned(net: Net, w: Worker, t: Turn): Worker {
    var start := w.clock + t.idle;
    var s := Serve(net, t.payload, t.ready, start);
    Worker(Slept(s.ack, start + t.busy, t.overrun), w.log + [s])
  }

  function Run(net: Net, turns: seq<Turn>): Worker
    decreases |turns|
  {
    if turns == [] then Worker(0.0, []) else Turned(net, Run(net, turns[..|turns| - 1]), turns[|turns| - 1])
  }

  ghost predicate AllForward(turns: seq<Turn>) {
    forall k :: 0 <= k < |turns| ==> turns[k].Forward()
  }

  /** A worker that has begun a service after the given turns and is not done with it. */
  ghost predicate Begun(net: Net, turns: seq<Turn>, log: seq<Service>, clock: real) {
    log != [] &&
    var w, s := Run(net, turns), log[|log| - 1];
    && log == w.log + [s] && s == Serve(net, s.payload, s.ready, s.start)
    && w.clock <= s.start <= clock
  }

  /** The log is serial and the worker has slept until its last acknowledgement. */
  ghost predicate Sound(net: Net, w: Worker) {
    Serial(net, w.log) && (w.log != [] ==> w.log[|w.log| - 1].ack <= w.clock)
  }

  lemma TurnKeepsSound(net: Net, w: Worker, t: Turn)
    requires Sound(net, w) && t.Forward()
    ensures Sound(net, Turned(net, w, t))
  {
    var start := w.clock + t.idle;
    var s := Serve(net, t.payload, t.ready, start);
    SleepCovers(s.ack, start + t.busy, t.overrun);
    SerialSnoc(net, w.log, s);
  }

  lemma SerialSnoc(net: Net, log: seq<Service>, s: Service)
    requires Serial(net, log) && s == Serve(net, s.payload, s.ready, s.start)
    requires log != [] ==> log[|log| - 1].ack <= s.start
    ensures Serial(net, log + [s])
  {
    assert (log + [s])[..|log + [s]| - 1] == log;
  }

  /** Every run of the worker is serial and has slept until its last acknowledgement. */
  lemma {:induction false} EveryRunIsSerial(net: Net, turns: seq<Turn>)
    requires AllForward(turns)
    ensures Sound(net, Run(net, turns))
    decreases |turns|
  {
    if turns != [] {
      var front := turns[..|turns| - 1];
      EveryRunIsSerial(net, front);
      TurnKeepsSound(net, Run(net, front), turns[|turns| - 1]);
    }
  }

  /** Each turn serves its own task. */
  lemma {:induction false} RunServesTurns(net: Net, turns: seq<Turn>)
    ensures var log := Run(net, turns).log;
      && |log| == |turns|
      && forall k :: 0 <= k < |turns| ==> log[k].payload == turns[k].payload && log[k].ready == turns[k].ready
    decreases |turns|
  {
    if turns != [] {
      RunServesTurns(net, turns[..|turns| - 1]);
    }
  }

  /** A service begun after a run extends its serial log. */
  lemma BegunIsSerial(net: Net, turns: seq<Turn>, log: seq<Service>, clock: real)
    requires AllForward(turns) && Begun(net, turns, log, clock)
    ensures Serial(net, log)
  {
    EveryRunIsSerial(net, turns);
    SerialSnoc(net, Run(net, turns).log, log[|log| - 1]);
  }

  /** Finishing a begun service is a turn of the worker. */
  lemma FinishIsTurn(net: Net, turns: seq<Turn>, log: seq<Service>, clock: real, now: real, overrun: real)
    returns (t: Turn)
    requires AllForward(turns) && Begun(net, turns, log, clock) && clock <= now && overrun >= 0.0
    ensures t.Forward() && AllForward(turns + [t])
    ensures Run(net, turns + [t]) == Worker(Slept(log[|log| - 1].ack, now, overrun), log)
  {
    var w, s := Run(net, turns), log[|log| - 1];
    t := Turn(s.payload, s.ready, s.start - w.clock, now - s.start, overrun);
    assert (turns + [t])[..|turns + [t]| - 1] == turns;
  }

  /** Service windows never overlap, whatever the clock reads and however long sleeps overrun. */
  lemma WindowsDisjoint(net: Net, turns: seq<Turn>, i: nat, j: nat)
    requires net.Valid() && AllForward(turns) && i < j < |turns|
    ensures var log := Run(net, turns).log;
      && |log| == |turns|
      && log[i].start <= log[i].ack <= log[j].start <= log[j].ack
  {
    EveryRunIsSerial(net, turns);
    RunServesTurns(net, turns);
    SerialWindows(net, Run(net, turns).log, i, j);
  }

  function TotalPayload(log: seq<Service>): nat
    decreases |log|
  {
    if log == [] then 0 else TotalPayload(log[..|log| - 1]) + log[|log| - 1].payload
  }

  /** Services cannot beat the link: the last acknowledgement comes no earlier than the first start plus
      a fixed latency for each transfer plus all bytes at the link's rate, and exactly then when the
      link is never idle in between. */
  lemma {:induction false} FinishBound(net: Net, log: seq<Service>)
    requires net.Valid() && Serial(net, log) && log != []
    ensures var least := log[0].start + |log| as real * (net.fixedLatencyMs / 1000.0) + TotalPayload(log) as real / net.Rate();
      && log[|log| - 1].ack >= least
      && (log[|log| - 1].ack == least <==> forall k :: 0 < k < |log| ==> log[k].start == log[k - 1].ack)
    decreases |log|
  {
    var front, last := log[..|log| - 1], log[|log| - 1];
    if front == [] {
      assert TotalPayload(front) == 0;
    } else {
      FinishBound(net, front);
      AddBytes(TotalPayload(front), last.payload, net.Rate());
      AddOne(|front|, net.fixedLatencyMs / 1000.0);
      assert log[|log| - 1].start == log[|log| - 2].ack <==> last.start == front[|front| - 1].ack;
    }
  }

  lemma AddBytes(a: nat, b: nat, rate: real)
    requires rate >= 1.0
    ensures (a + b) as real / rate == a as real / rate + b as real / rate
  {
  }

  lemma AddOne(n: nat, x: real)
    ensures (n + 1) as real * x == n as real * x + x
  {
  }

  // ----- the queueing average -----

  const ALPHA := 0.2

  function Ema(log: seq<Service>): real
    decreases |log|
  {
    if log == [] then 0.0 else (1.0 - ALPHA) * Ema(log[..|log| - 1]) + ALPHA * log[|log| - 1].queueMs
  }

  function Decay(k: nat): real { if k == 0 then 1.0 else 0.8 * Decay(k - 1) }

  /** Each delay counts a fifth, and four fifths of that for every service after it. */
  lemma {:induction false} EmaWeights(log: seq<Service>)
    requires log != []
    ensures Ema(log) == 0.2 * Decay(|log| - 1) * log[0].queueMs + Ema(log[1..])
    decreases |log|
  {
    var front, n := log[..|log| - 1], |log|;
    if n > 1 {
      EmaWeights(front);
      assert log[1..][..n - 2] == front[1..] && log[1..][n - 2] == log[n - 1];
      var d, q := Decay(n - 2), log[0].queueMs;
      assert 0.8 * (0.2 * d * q) == 0.2 * (0.8 * d) * q;
    } else {
      assert front == [] && log[1..] == [];
    }
  }

  function MaxQueue(log: seq<Service>): real
    decreases |log|
  {
    if log == [] then 0.0 else Max(MaxQueue(log[..|log| - 1]), log[|log| - 1].queueMs)
  }

  lemma {:induction false} MaxQueueIsMax(log: seq<Service>)
    ensures forall k :: 0 <= k < |log| ==> log[k].queueMs <= MaxQueue(log)
    ensures MaxQueue(log) == 0.0 || exists k :: 0 <= k < |log| && log[k].queueMs == MaxQueue(log)
    decreases |log|
  {
    if log != [] {
      var front := log[..|log| - 1];
      MaxQueueIsMax(front);
      if MaxQueue(log) == log[|log| - 1].queueMs {
      } else if MaxQueue(log) != 0.0 {
        var k :| 0 <= k < |front| && front[k].queueMs == MaxQueue(front);
        assert log[k].queueMs == MaxQueue(log);
      }
    }
  }

  /** The average stays between zero and the largest queueing delay seen. */
  lemma {:induction false} EmaBounds(net: Net, log: seq<Service>)
    requires Serial(net, log)
    ensures 0.0 <= Ema(log) <= MaxQueue(log)
    decreases |log|
  {
    if log != [] {
      EmaBounds(net, log[..|log| - 1]);
    }
  }

  // ----- the simulator -----

  /** What a caller waits for. A caller that goes away cancels it. */
  datatype Future = Waiting | Cancelled | Answered(batchId: nat, queueMs: real, transferMs: real, totalMs: real)

  function Reply(batchId: nat, s: Service): Future {
    Answered(batchId, s.queueMs, s.transferMs, s.totalMs)
  }

  class TransferTask {
    const payloadBytes: nat
    const readyTime: real
    var batchId: int
    var batchStartTime: real
    var ackTime: real
    var networkQueueMs: real
    var networkTransferMs: real
    var networkTotalMs: real
    var future: Future
    ghost const place: nat

    constructor (payload: int, readyTime: real, ghost place: nat)
      ensures this.place == place
      ensures payloadBytes == (if payload < 0 then 0 else payload) && this.readyTime == readyTime && future == Waiting
    {
      payloadBytes := if payload < 0 then 0 else payload;
      this.readyTime, this.place := readyTime, place;
      batchId, batchStartTime, ackTime := -1, 0.0, 0.0;
      networkQueueMs, networkTransferMs, networkTotalMs, future := 0.0, 0.0, 0.0, Waiting;
    }

    ghost function Recorded(): Service
      reads this
    {
      Service(payloadBytes, readyTime, batchStartTime, ackTime, networkQueueMs, networkTransferMs, networkTotalMs)
    }

    /** Task number `k` is recorded as the log says once its service has begun. When it is done it has its
        answer unless it was cancelled; before that it has none. */
    ghost predicate IsAt(k: nat, log: seq<Service>, done: nat)
      requires done <= |log|
      reads this
    {
      && place == k
      && (k < |log| ==> batchId == k && Recorded() == log[k])
      && (if k < done then future == Cancelled || future == Reply(k, log[k]) else !future.Answered?)
    }
  }

  lemma DropSnoc<T>(s: seq<T>, n: nat, x: T)
    requires n <= |s|
    ensures (s + [x])[n..] == s[n..] + [x]
  {
  }

  class NetworkSimulator {
    const net: Net
    var pending: seq<TransferTask>
    var batchSeq: nat
    var activeTransfers: int
    var queueMsEma: real
    var current: TransferTask?
    ghost var submitted: seq<TransferTask>
    ghost var turns: seq<Turn>
    ghost var log: seq<Service>
    ghost var clock: real

    /** Tasks are served in order of submission: those whose service has begun and then the pending ones are
        the tasks submitted. The log is that of a run of the worker, with one more service while it is
        serving, and the average is over the log. */
    ghost predicate Valid()
      reads this
    {
      && net.Valid() && AllForward(turns)
      && batchSeq == |log| <= |submitted| && pending == submitted[|log|..]
      && queueMsEma == Ema(log)
      && (current == null ==> activeTransfers == 0 && Run(net, turns) == Worker(clock, log))
      && (current != null ==>
            && activeTransfers == 1 && Begun(net, turns, log, clock)
            && current == submitted[|log| - 1])
    }

    /** How many tasks the worker is done with. */
    ghost function Done(): nat
      reads this
      requires Valid()
    {
      if current == null then |log| else |log| - 1
    }

    /** Every task submitted is as far as the log and the number of tasks done say. */
    ghost predicate Resolved()
      reads this, submitted
      requires Valid()
    {
      forall k :: 0 <= k < |submitted| ==> submitted[k].IsAt(k, log, Done())
    }

    constructor (bandwidthMbS: real, fixedLatencyMs: real, efficiency: real)
      ensures Valid() && Resolved() && net == Clamped(bandwidthMbS, fixedLatencyMs, efficiency)
      ensures submitted == [] && log == [] && current == null
    {
      net := Clamped(bandwidthMbS, fixedLatencyMs, efficiency);
      pending, batchSeq, activeTransfers, queueMsEma, current := [], 0, 0, 0.0, null;
      submitted, turns, log, clock := [], [], [], 0.0;
    }

    /** Appends a task with a clamped payload, also while another is being served. */
    method SubmitTransfer(payload: int, readyTime: real) returns (task: TransferTask)
      requires Valid() && Resolved()
      modifies this`pending, this`submitted
      ensures Valid() && Resolved()
      ensures fresh(task) && submitted == old(submitted) + [task]
      ensures task.payloadBytes == (if payload < 0 then 0 else payload) && task.readyTime == readyTime
      ensures task.future == Waiting
    {
      task := new TransferTask(payload, readyTime, |submitted|);
      DropSnoc(submitted, |log|, task);
      pending := pending + [task];
      submitted := submitted + [task];
    }

    /** A caller gives up: its task is served all the same, and never answered. */
    method Cancel(task: TransferTask) returns (given: bool)
      requires Valid() && Resolved() && task in submitted
      modifies task`future
      ensures Valid() && Resolved()
      ensures given == (old(task.future) == Waiting)
      ensures task.future == if given then Cancelled else old(task.future)
    {
      given := task.future == Waiting;
      if given {
        task.future := Cancelled;
      }
    }

    /** Fills in the record of a transfer for a service that starts at `start`. */
    method ServeOne(taskId: nat, task: TransferTask, start: real)
      requires net.Valid()
      modifies task, this`activeTransfers, this`queueMsEma
      ensures task.Recorded() == Serve(net, task.payloadBytes, task.readyTime, start)
      ensures task.batchId == taskId && task.future == old(task.future)
      ensures queueMsEma == (1.0 - ALPHA) * old(queueMsEma) + ALPHA * task.networkQueueMs
      ensures activeTransfers == 1
    {
      activeTransfers := 1;
      var effectiveBandwidth := net.bandwidth * net.efficiency;
      var transferS := task.payloadBytes as real / Max(1.0, effectiveBandwidth);
      var totalNetS := net.fixedLatencyMs / 1000.0 + transferS;
      var ackTime := start + totalNetS;
      var queueS := Max(0.0, start - task.readyTime);
      task.batchId := taskId;
      task.batchStartTime := start;
      task.ackTime := ackTime;
      task.networkQueueMs := queueS * 1000.0;
      queueMsEma := (1.0 - ALPHA) * queueMsEma + ALPHA * task.networkQueueMs;
      task.networkTransferMs := totalNetS * 1000.0;
      task.networkTotalMs := Max(0.0, ackTime - task.readyTime) * 1000.0;
    }

    /** The worker takes the oldest task, reads the clock, and records the service. */
    method Begin(start: real)
      requires Valid() && Resolved() && current == null && pending != [] && clock <= start
      modifies this, pending[0]
      ensures Valid() && Resolved()
      ensures submitted == old(submitted) && pending == old(pending[1..]) && current == old(pending[0])
      ensures log == old(log) + [Serve(net, current.payloadBytes, current.readyTime, start)] && clock == start
      ensures turns == old(turns) && current.future == old(pending[0].future)
    {
      var task := pending[0];
      pending := pending[1..];
      var taskId := batchSeq;
      batchSeq := batchSeq + 1;
      ServeOne(taskId, task, start);
      current := task;
      log := log + [Serve(net, task.payloadBytes, task.readyTime, start)];
      assert log[..|log| - 1] == old(log);
      clock := start;
    }

    /** Gives the caller its result, if it still waits. */
    method Answer(task: TransferTask)
      requires task.batchId >= 0
      modifies task`future
      ensures task.future == if old(task.future) == Waiting then Reply(task.batchId, task.Recorded()) else old(task.future)
    {
      if task.future == Waiting {
        task.future := Answered(task.batchId, task.networkQueueMs, task.networkTransferMs, task.networkTotalMs);
      }
    }

    /** The worker reads the clock again, sleeps for what remains until the acknowledgement, if anything
        does, and answers the caller unless it has gone. A sleep overruns by `overrun`. */
    method Finish(now: real, overrun: real) returns (ghost t: Turn)
      requires Valid() && Resolved() && current != null && clock <= now && overrun >= 0.0
      modifies this`current, this`activeTransfers, this`turns, this`clock, current`future
      ensures Valid() && Resolved() && current == null
      ensures clock == Slept(log[|log| - 1].ack, now, overrun) >= log[|log| - 1].ack
      ensures old(current).future == if old(current.future) == Cancelled then Cancelled else Reply(|log| - 1, log[|log| - 1])
      ensures t.Forward() && turns == old(turns) + [t]
    {
      var task := current;
      t := FinishIsTurn(net, turns, log, clock, now, overrun);
      SleepCovers(log[|log| - 1].ack, now, overrun);
      var remain := task.ackTime - now;
      ghost var woke := now;
      if remain > 0.0 {
        woke := now + remain + overrun;
      }
      Answer(task);
      current := null;
      activeTransfers := 0;
      turns := turns + [t];
      clock := woke;
      forall k | 0 <= k < |submitted| ensures submitted[k].IsAt(k, log, |log|) {
        assert old(submitted[k].IsAt(k, log, |log| - 1));
        assert submitted[k] != task ==> k != |log| - 1;
      }
    }

    /** What the heartbeat reports: every task not done is pending or active, and the average is within the
        delays seen. */
    method RuntimeStats() returns (pendingTransfers: nat, active: nat, ema: real)
      requires Valid()
      ensures pendingTransfers == |submitted| - |log| && active == (if current == null then 0 else 1)
      ensures pendingTransfers + active == |submitted| - Done()
      ensures 0.0 <= ema <= MaxQueue(log) && ema == Ema(log)
    {
      if current == null {
        EveryRunIsSerial(net, turns);
      } else {
        BegunIsSerial(net, turns, log, clock);
      }
      EmaBounds(net, log);
      pendingTransfers, active, ema := |pending|, activeTransfers, queueMsEma;
    }
  }
}
