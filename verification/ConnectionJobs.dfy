/** An application that writes a stream of any length through the bounded send buffer, and how it ends. */
module ConnectionJobs {
  import opened Words
  import opened TcpReceiver
  import opened TcpSender
  import opened SenderInvariant
  import opened Connection
  import opened ConnectionSafety
  import opened ConnectionProgress
  import opened ConnectionDriver
  import Sending = SenderTheorems

  /** A connection and what its application has still to write. */
  datatype Job = Job(c: State, rest: seq<byte>)

  /** What is left of rest when the stream of s has taken what it has room for. */
  function Left(s: SenderState, rest: seq<byte>): seq<byte>
    requires s.stream.Valid()
  {
    if s.stream.closed then rest else rest[Min(|rest|, s.stream.Available())..]
  }

  /** Offer what is left, and close once the stream has taken all of it. */
  function FeedActions(s: SenderState, rest: seq<byte>): seq<Action>
    requires s.stream.Valid()
  {
    [Local(Sending.Write(rest))] + if Left(s, rest) == [] then [Local(Sending.CloseWriter)] else []
  }

  function Fed(s: SenderState, rest: seq<byte>): (s': SenderState)
    requires s.stream.Valid()
    ensures s'.stream.Valid()
  {
    if Left(s, rest) == [] then CloseWriter(Write(s, rest)) else Write(s, rest)
  }

  function JobActions(j: Job): seq<Action>
    requires j.c.sender.stream.Valid()
  {
    FeedActions(j.c.sender, j.rest) + RoundActions(j.c.(sender := Fed(j.c.sender, j.rest)))
  }

  /** One round of feeding and driving takes j to j'. */
  ghost predicate JobStep(j: Job, j': Job) {
    && j.c.sender.stream.Valid()
    && Legal(j.c, JobActions(j)) && j'.c == Connection.Run(j.c, JobActions(j))
    && j'.rest == Left(j.c.sender, j.rest)
  }

  /** The job of carrying all: part of it is written, the rest is not, and the writer closes only at the end. */
  ghost predicate JobFor(j: Job, all: seq<byte>) {
    && j.c.sender.stream.accepted + j.rest == all
    && (j.c.sender.stream.closed ==> j.rest == [])
    && j.c.sender.mss > 0 && j.c.receiver.assembly.output.capacity > 0
    && (j.rest == [] || j.c.sender.stream.capacity > 0)
    && FitsCounters(|all|, j.c.receiver.assembly.output.capacity)
  }

  // Feeding

  lemma WriteTakesPrefix(s: SenderState, rest: seq<byte>)
    requires s.stream.Valid() && (s.stream.closed ==> rest == [])
    ensures Write(s, rest).stream.accepted + Left(s, rest) == s.stream.accepted + rest
    ensures Left(s, rest) != [] ==> Write(s, rest).stream.Available() == 0
  {
    if !s.stream.closed {
      var n := Min(|rest|, s.stream.Available());
      assert rest == rest[..n] + rest[n..];
      Reassociate(s.stream.accepted, rest[..n], rest[n..]);
    }
  }

  lemma CanWrite(j: Job, all: seq<byte>)
    requires Sound(j.c) && JobFor(j, all) && j.c.sender.stream.Valid()
    ensures Does(j.c, Local(Sending.Write(j.rest)), j.c.(sender := Write(j.c.sender, j.rest)))
  {
    SoundIsInv(j.c);
    DoesIsApply(j.c, Local(Sending.Write(j.rest)), j.c.(sender := Write(j.c.sender, j.rest)));
  }

  lemma CanClose(c: State)
    requires Sound(c) && c.sender.stream.Valid()
    ensures Does(c, Local(Sending.CloseWriter), c.(sender := CloseWriter(c.sender)))
  {
    SoundIsInv(c);
    DoesIsApply(c, Local(Sending.CloseWriter), c.(sender := CloseWriter(c.sender)));
  }

  lemma SoundIsValid(c: State)
    requires Sound(c)
    ensures c.sender.stream.Valid()
  {
    SoundIsInv(c);
  }

  lemma OneGoes(c0: State, a1: Action, c1: State)
    requires Does(c0, a1, c1)
    ensures Goes(c0, [a1], c1)
  {
    GoesOn(c0, a1, c1, [], c1);
    assert [a1] + [] == [a1];
  }

  lemma TwoGo(c0: State, a1: Action, c1: State, a2: Action, c2: State)
    requires Does(c0, a1, c1) && Does(c1, a2, c2)
    ensures Goes(c0, [a1] + [a2], c2)
  {
    OneGoes(c1, a2, c2);
    GoesOn(c0, a1, c1, [a2], c2);
  }

  lemma FeedGoes(j: Job, all: seq<byte>, fed: State)
    requires Sound(j.c) && JobFor(j, all) && j.c.sender.stream.Valid()
    requires fed == j.c.(sender := Fed(j.c.sender, j.rest))
    ensures Goes(j.c, FeedActions(j.c.sender, j.rest), fed) && Sound(fed)
  {
    var write, written := Local(Sending.Write(j.rest)), j.c.(sender := Write(j.c.sender, j.rest));
    CanWrite(j, all);
    DoesKeepsSound(j.c, write, written);
    if Left(j.c.sender, j.rest) == [] {
      CanClose(written);
      DoesKeepsSound(written, Local(Sending.CloseWriter), fed);
      TwoGo(j.c, write, written, Local(Sending.CloseWriter), fed);
    } else {
      OneGoes(j.c, write, written);
    }
  }

  // One step

  /** Sound and a job for all, and so is everything it becomes. */
  ghost predicate SoundJob(j: Job, all: seq<byte>) {
    Sound(j.c) && JobFor(j, all)
  }

  lemma BufferedIsUnacknowledged(c: State)
    requires Sound(c) && c.sender.stream.Valid() && c.sender.stream.Buffered() > 0 && !c.sender.stream.closed
    ensures c.sender.acknowledged < Sending.Demand(c.sender)
  {
    SoundIsInv(c);
  }

  /** While something is left to write the send buffer is full, so a round cannot end idle without progress. */
  lemma FedRoundEffect(fed: Job, c': State, all: seq<byte>)
    requires SoundJob(fed, all) && fed.c.sender.stream.Valid() && Goes(fed.c, RoundActions(fed.c), c')
    requires if fed.rest == [] then fed.c.sender.stream.closed else fed.c.sender.stream.Buffered() > 0
    ensures Sound(c') && SameJob(fed.c, c')
    ensures (fed.rest == [] && Complete(c')) || c'.sender.acknowledged > fed.c.sender.acknowledged
  {
    GoingRoundEffect(fed.c, c');
    if Idle(c') {
      if fed.rest == [] {
        ClosedAndIdleIsComplete(c');
      } else if !fed.c.sender.stream.closed {
        BufferedIsUnacknowledged(fed.c);
      }
    }
  }

  lemma GoesKeepsCapacity(c: State, run: seq<Action>, c': State)
    requires Sound(c) && Goes(c, run, c')
    ensures c'.sender.stream.capacity == c.sender.stream.capacity
  {
    SoundIsInv(c);
    GoesIsRun(c, run, c');
    RunIsOnward(c, run);
  }

  lemma JobGoes(j: Job, all: seq<byte>, c': State)
    requires SoundJob(j, all) && j.c.sender.stream.Valid()
    requires Goes(j.c.(sender := Fed(j.c.sender, j.rest)), RoundActions(j.c.(sender := Fed(j.c.sender, j.rest))), c')
    ensures Goes(j.c, JobActions(j), c')
  {
    var fed := j.c.(sender := Fed(j.c.sender, j.rest));
    FeedGoes(j, all, fed);
    GoesFurther(j.c, FeedActions(j.c.sender, j.rest), fed, RoundActions(fed), c');
  }

  /** A step of a job is possible, and it completes the job or moves the ACK point. */
  lemma JobAdvances(j: Job, all: seq<byte>) returns (j': Job)
    requires SoundJob(j, all)
    ensures j.c.sender.stream.Valid() && Goes(j.c, JobActions(j), j'.c) && j'.rest == Left(j.c.sender, j.rest)
    ensures SoundJob(j', all)
    ensures (j'.rest == [] && Complete(j'.c)) || j'.c.sender.acknowledged > j.c.sender.acknowledged
  {
    SoundIsValid(j.c);
    var fed := Job(j.c.(sender := Fed(j.c.sender, j.rest)), Left(j.c.sender, j.rest));
    FeedGoes(j, all, fed.c);
    var c' := CanRound(fed.c);
    FedRoundEffect(fed, c', all);
    GoesKeepsCapacity(fed.c, RoundActions(fed.c), c');
    JobGoes(j, all, c');
    j' := Job(c', fed.rest);
  }

  lemma JobStepIsGoes(j: Job, j': Job)
    ensures JobStep(j, j') <==> && j.c.sender.stream.Valid() && Goes(j.c, JobActions(j), j'.c)
                                && j'.rest == Left(j.c.sender, j.rest)
  {
    if j.c.sender.stream.Valid() {
      GoesIsRun(j.c, JobActions(j), j'.c);
    }
  }

  /** The positions of the whole stream, SYN and FIN included, that are not yet acknowledged. */
  function Unacknowledged(j: Job, all: seq<byte>): nat {
    if |all| + 2 <= j.c.sender.acknowledged then 0 else |all| + 2 - j.c.sender.acknowledged
  }

  lemma ProgressLowersUnacknowledged(j: Job, j': Job, all: seq<byte>)
    requires SoundJob(j, all) && SoundJob(j', all)
    requires (j'.rest == [] && Complete(j'.c)) || j'.c.sender.acknowledged > j.c.sender.acknowledged
    ensures (Unacknowledged(j', all) == 0 && Finished(j', all)) || Unacknowledged(j', all) < Unacknowledged(j, all)
  {
    AckIsInDemand(j'.c);
    if j'.rest == [] && Complete(j'.c) {
      CompleteIsClosed(j'.c);
    }
  }

  lemma CompleteIsClosed(c: State)
    requires Sound(c) && Complete(c)
    ensures c.sender.stream.closed
  {
    SoundIsInv(c);
  }

  /** All has been read, and the FIN is acknowledged. */
  predicate Finished(j: Job, all: seq<byte>) {
    Complete(j.c) && j.rest == [] && j.c.sender.stream.closed && j.c.receiver.assembly.output.accepted == all
  }

  lemma JobStepEffect(j: Job, j': Job, all: seq<byte>)
    requires SoundJob(j, all) && JobStep(j, j')
    ensures SoundJob(j', all)
    ensures (Unacknowledged(j', all) == 0 && Finished(j', all)) || Unacknowledged(j', all) < Unacknowledged(j, all)
  {
    JobStepIsGoes(j, j');
    var j'' := JobAdvances(j, all);
    GoesIsDeterministic(j.c, JobActions(j), j'.c, j''.c);
    assert j' == j'';
    ProgressLowersUnacknowledged(j, j', all);
  }

  // Whole jobs

  /** The states of a job, each one round after the one before. */
  ghost predicate Working(jobs: seq<Job>) {
    && jobs != []
    && forall i, j {:trigger JobStep(jobs[i], jobs[j])} :: 0 <= i && j == i + 1 < |jobs| ==> JobStep(jobs[i], jobs[j])
  }

  lemma {:induction false} SoundJobFinishes(jobs: seq<Job>, all: seq<byte>)
    requires Working(jobs) && SoundJob(jobs[0], all) && |jobs| > Unacknowledged(jobs[0], all) + 1
    ensures Finished(jobs[|jobs| - 1], all)
    decreases |jobs|
  {
    JobStepEffect(jobs[0], jobs[1], all);
    if |jobs| > 2 {
      SoundJobFinishes(jobs[1..], all);
    }
  }

  /**
   * Termination with back-pressure: from any state of any job, feeding and driving finishes within one
   * round more than there are unacknowledged positions of the whole stream, however much longer that is
   * than the send buffer; the reader has then read exactly the whole stream.
   */
  lemma JobFinishes(first: Job, later: seq<Job>, all: seq<byte>)
    requires Inv(first.c) && JobFor(first, all)
    requires Working([first] + later) && |later| > Unacknowledged(first, all)
    ensures Finished(later[|later| - 1], all)
  {
    SoundIsInv(first.c);
    SoundJobFinishes([first] + later, all);
  }

  /** A job never gets stuck, and its rounds together are one legal run. */
  lemma {:induction false} JobRuns(j: Job, all: seq<byte>, n: nat) returns (jobs: seq<Job>, run: seq<Action>)
    requires SoundJob(j, all)
    ensures Working(jobs) && |jobs| == n + 1 && jobs[0] == j
    ensures Goes(j.c, run, jobs[n].c)
    decreases n
  {
    if n == 0 {
      jobs, run := [j], [];
    } else {
      var next := JobAdvances(j, all);
      JobStepIsGoes(j, next);
      var later, laterRun := JobRuns(next, all, n - 1);
      jobs, run := [j] + later, JobActions(j) + laterRun;
      GoesFurther(j.c, JobActions(j), next.c, laterRun, later[n - 1].c);
    }
  }

  /**
   * Every stream, however long, can be carried to its end by every configuration with a usable segment
   * size and usable buffers: there is a legal run of a new connection after which the reader has read
   * exactly the data, the receiving stream is finished and the FIN is acknowledged.
   */
  lemma EveryJobCompletes(g: Configuration, data: seq<byte>) returns (jobs: seq<Job>, run: seq<Action>)
    requires g.mss > 0 && g.receiveCapacity > 0 && FitsCounters(|data|, g.receiveCapacity)
    requires data == [] || g.sendCapacity > 0
    ensures Working(jobs) && jobs[0] == Job(NewConnection(g), data) && |jobs| == |data| + 4
    ensures Legal(NewConnection(g), run) && Connection.Run(NewConnection(g), run) == jobs[|data| + 3].c
    ensures Finished(jobs[|data| + 3], data)
  {
    var j := Job(NewConnection(g), data);
    jobs, run := JobRuns(j, data, |data| + 3);
    SoundJobFinishes(jobs, data);
    GoesIsRun(j.c, run, jobs[|data| + 3].c);
  }
}
