/**
 * The dispatch pipeline: the `publish` handler sends (target, body) jobs into
 * a bounded channel of capacity 100, and a single worker takes them out
 * oldest first and POSTs each body to its target. A failed POST makes the
 * worker panic; its end closes the channel, the jobs still buffered are lost,
 * and every later send fails, which makes the handler panic in turn.
 */
module Dispatch {
  import opened Target
  import opened Http

  /** One queued delivery: the normalised target and the request body, verbatim. */
  datatype Job = Job(target: string, body: string)

  /**
   * What an outbound POST produced: a response with its status, or a failure
   * of the request itself (a transport error, or a target that does not parse
   * as a URL), which `send` reports as an error.
   */
  datatype Outcome = Responded(status: int) | PostFailed

  /** What the handler does: reply, or panic when its send fails. */
  datatype HandlerResult = Replied(reply: Reply) | Panicked

  /** The channel's capacity. */
  const Capacity: nat := 100

  /**
   * How many of the jobs in `pending` the worker takes when the successive
   * POSTs produce `replies`: it goes on after any response, whatever its
   * status, and stops after the first failed POST.
   */
  function Taken(pending: seq<Job>, replies: seq<Outcome>): (n: nat)
    ensures n <= |pending| && n <= |replies|
    ensures 0 < n ==> PostFailed !in replies[..n - 1]
    ensures n < |pending| && n < |replies| ==> 0 < n && replies[n - 1].PostFailed?
  {
    if pending == [] || replies == [] then 0
    else if replies[0].PostFailed? then 1
    else 1 + Taken(pending[1..], replies[1..])
  }

  /** A failed POST ends the run at that job, however many jobs wait behind it. */
  lemma {:induction false} TakenStopsAtFirstError(pending: seq<Job>, replies: seq<Outcome>, k: nat)
    requires k < |pending| && k < |replies| && replies[k].PostFailed?
    requires forall i :: 0 <= i < k ==> replies[i].Responded?
    ensures Taken(pending, replies) == k + 1
    decreases k
  {
    if k > 0 {
      TakenStopsAtFirstError(pending[1..], replies[1..], k - 1);
    }
  }

  /** Without failed POSTs the worker takes every pending job. */
  lemma {:induction false} TakenAllWithoutError(pending: seq<Job>, replies: seq<Outcome>)
    requires |pending| <= |replies|
    requires forall i :: 0 <= i < |replies| ==> replies[i].Responded?
    ensures Taken(pending, replies) == |pending|
    decreases |pending|
  {
    if pending != [] {
      TakenAllWithoutError(pending[1..], replies[1..]);
    }
  }

  /**
   * The relay's state: the container flag, the channel's buffer and whether
   * the worker still runs. The ghost fields record the history: every job the
   * handler sent, every job the worker POSTed with the outcome, and the jobs
   * lost when the worker ended.
   */
  class Relay {
    const inContainer: bool
    var queue: seq<Job>
    var workerAlive: bool
    ghost var sent: seq<Job>
    ghost var posted: seq<Job>
    ghost var outcomes: seq<Outcome>
    ghost var dropped: seq<Job>

    /**
     * The channel never holds more than its capacity; the jobs are POSTed in
     * the order they were sent; only the last POST can have failed, and the
     * worker runs exactly when none has.
     */
    ghost predicate Valid()
      reads this
    {
      |queue| <= Capacity
      && sent == posted + dropped + queue
      && |outcomes| == |posted|
      && (workerAlive <==> PostFailed !in outcomes)
      && (outcomes == [] || PostFailed !in outcomes[..|outcomes| - 1])
      && (workerAlive ==> dropped == [])
      && (!workerAlive ==> queue == [])
    }

    /** Start-up: an empty channel and a running worker. */
    constructor (inContainer: bool)
      ensures Valid() && this.inContainer == inContainer
      ensures queue == [] && workerAlive
      ensures sent == [] && posted == [] && outcomes == [] && dropped == []
    {
      this.inContainer := inContainer;
      queue := [];
      workerAlive := true;
      sent, posted, outcomes, dropped := [], [], [], [];
    }

    /**
     * The handler's send: it needs room in the channel, and succeeds while
     * the worker runs, appending exactly `job` at the back.
     */
    method Send(job: Job) returns (ok: bool)
      requires Valid() && |queue| < Capacity
      modifies this
      ensures Valid()
      ensures ok == old(workerAlive) && workerAlive == old(workerAlive)
      ensures queue == (if ok then old(queue) + [job] else old(queue))
      ensures sent == (if ok then old(sent) + [job] else old(sent))
      ensures posted == old(posted) && outcomes == old(outcomes) && dropped == old(dropped)
    {
      ok := workerAlive;
      if ok {
        queue := queue + [job];
        sent := sent + [job];
      }
    }

    /**
     * The `publish` handler: enqueues the normalised target with the body as
     * received, then answers 201 with the message identifier, before and
     * whatever the delivery. When the send fails the handler panics.
     */
    method Publish(path: string, body: string, messageId: string) returns (r: HandlerResult)
      requires Valid() && |queue| < Capacity && IsUuidV4Text(messageId)
      modifies this
      ensures Valid()
      ensures r == (if old(workerAlive) then Replied(PublishReply(messageId)) else Panicked)
      ensures queue == (if old(workerAlive)
                        then old(queue) + [Job(NormalizeTarget(path, inContainer), body)]
                        else old(queue))
      ensures sent == (if old(workerAlive)
                       then old(sent) + [Job(NormalizeTarget(path, inContainer), body)]
                       else old(sent))
      ensures workerAlive == old(workerAlive)
      ensures posted == old(posted) && outcomes == old(outcomes) && dropped == old(dropped)
    {
      var target := NormalizeTarget(path, inContainer);
      var ok := Send(Job(target, body));
      if ok {
        r := Replied(PublishReply(messageId));
      } else {
        r := Panicked;
      }
    }

    /**
     * One turn of the worker loop, once `recv` has handed it the oldest job:
     * POST that job's body to its target, which produces `outcome`. A
     * response of any status lets the worker go on; a failed POST ends
     * it, and the jobs still buffered are lost.
     */
    method DeliverNext(outcome: Outcome) returns (job: Job)
      requires Valid() && workerAlive && queue != []
      modifies this
      ensures Valid()
      ensures job == old(queue)[0]
      ensures sent == old(sent)
      ensures posted == old(posted) + [job] && outcomes == old(outcomes) + [outcome]
      ensures workerAlive == outcome.Responded?
      ensures outcome.Responded? ==> queue == old(queue)[1..] && dropped == old(dropped)
      ensures outcome.PostFailed? ==> queue == [] && dropped == old(queue)[1..]
    {
      job := queue[0];
      queue := queue[1..];
      posted := posted + [job];
      assert (outcomes + [outcome])[..|outcomes|] == outcomes;
      outcomes := outcomes + [outcome];
      if outcome.PostFailed? {
        workerAlive := false;
        dropped := queue;
        queue := [];
      }
    }

    /**
     * The worker loop run against the outcomes `replies` of its successive
     * POSTs, until the channel is empty, the replies run out, or a failed
     * POST ends the worker. It POSTs exactly the first `n` buffered jobs, in
     * order, with `n` as `Taken` gives it.
     */
    method RunWorker(replies: seq<Outcome>) returns (n: nat)
      requires Valid() && workerAlive
      modifies this
      ensures Valid()
      ensures n == Taken(old(queue), replies)
      ensures sent == old(sent)
      ensures posted == old(posted) + old(queue)[..n]
      ensures outcomes == old(outcomes) + replies[..n]
      ensures workerAlive <==> PostFailed !in replies[..n]
      ensures workerAlive ==> queue == old(queue)[n..] && dropped == []
      ensures !workerAlive ==> queue == [] && dropped == old(queue)[n..]
    {
      ghost var pending := queue;
      n := 0;
      while n < |replies| && workerAlive && queue != []
        invariant Valid()
        invariant n <= |replies| && n <= |pending|
        invariant sent == old(sent)
        invariant posted == old(posted) + pending[..n]
        invariant outcomes == old(outcomes) + replies[..n]
        invariant workerAlive <==> PostFailed !in replies[..n]
        invariant workerAlive ==> queue == pending[n..] && dropped == []
        invariant !workerAlive ==> queue == [] && dropped == pending[n..]
        invariant Taken(pending, replies) == if workerAlive then n + Taken(pending[n..], replies[n..]) else n
        decreases |replies| - n
      {
        TakenStep(pending, replies, n);
        ExtendPrefix(old(posted), pending, n);
        ExtendPrefix(old(outcomes), replies, n);
        assert pending[n..][1..] == pending[n + 1..];
        var _ := DeliverNext(replies[n]);
        n := n + 1;
      }
    }
  }

  /** Growing a recorded prefix by one element. */
  lemma ExtendPrefix<T>(base: seq<T>, s: seq<T>, k: nat)
    requires k < |s|
    ensures base + s[..k + 1] == base + s[..k] + [s[k]]
  {
    assert s[..k + 1] == s[..k] + [s[k]];
  }

  /** How `Taken` advances past job `k`. */
  lemma TakenStep(pending: seq<Job>, replies: seq<Outcome>, k: nat)
    requires k < |pending| && k < |replies|
    ensures Taken(pending[k..], replies[k..])
            == if replies[k].PostFailed? then 1 else 1 + Taken(pending[k + 1..], replies[k + 1..])
  {
    assert pending[k..][1..] == pending[k + 1..];
    assert replies[k..][1..] == replies[k + 1..];
  }

  /**
   * Jobs are POSTed in the order they were sent, each exactly once; a
   * non-2xx status does not stop the worker, a failed POST does, and the
   * handler's next publish then panics.
   */
  method PipelineScenario(j1: Job, j2: Job, j3: Job, path: string, body: string, id: string)
    requires IsUuidV4Text(id)
  {
    var relay := new Relay(false);
    var ok1 := relay.Send(j1);
    var ok2 := relay.Send(j2);
    var ok3 := relay.Send(j3);
    assert ok1 && ok2 && ok3 && relay.queue == [j1, j2, j3];
    var replies := [Responded(503), PostFailed, Responded(200)];
    TakenStopsAtFirstError([j1, j2, j3], replies, 1);
    var n := relay.RunWorker(replies);
    assert n == 2;
    assert relay.posted == [j1, j2] && relay.dropped == [j3] && !relay.workerAlive;
    var r := relay.Publish(path, body, id);
    assert r == Panicked;
  }
}
