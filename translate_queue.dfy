/** The translation queue of src/translateQueue.js: a FIFO of pending titles drained by at most one
    loop, which translates one title at a time and waits `interval` milliseconds after each.

    JavaScript runs one task at a time, so an `enqueue` that arrives while the drain loop is
    suspended in an `await` is an interleaved call between two loop iterations: `Step` is one
    iteration of the loop, and callers interleave `Enqueue` and `Step` freely. */
module Translation {
  import opened Wrappers

  /** What the remote translation service does for one call of `translate(title, null, 'uk')`. */
  datatype ServiceReply = Translated(text: string) | ServiceError

  /** How an awaited async call ends: it returns a value or it throws. */
  datatype Call<T> = Returned(value: T) | Threw

  /** How the promise handed out by `enqueue` is settled: `resolve(value)` or `reject(error)`. */
  datatype Settlement = Fulfilled(value: Option<string>) | Rejected

  /** A pending job: the promise it belongs to (numbered in enqueue order) and its title. */
  datatype Job = Job(ticket: nat, title: string)

  /** A settled job, as observed by the caller awaiting its promise. */
  datatype Resolution = Resolution(ticket: nat, title: string, settlement: Settlement)

  /** `translateToUkrainian`: a service failure is caught and turned into `null`, so the call never
      throws. */
  function TranslateToUkrainian(reply: ServiceReply): (r: Call<Option<string>>)
    ensures r.Returned?
    ensures r.value.None? <==> reply.ServiceError?
    ensures reply.Translated? ==> r.value == Some(reply.text)
  {
    match reply
    case Translated(text) => Returned(Some(text))
    case ServiceError => Returned(None)
  }

  /** The body of one loop iteration for `job`: resolve with the translation, reject if it threw. */
  function Settle(job: Job, reply: ServiceReply): (r: Resolution)
    ensures r.ticket == job.ticket && r.title == job.title
    ensures r.settlement == Fulfilled(TranslateToUkrainian(reply).value)
  {
    var settlement := match TranslateToUkrainian(reply)
      case Returned(v) => Fulfilled(v)
      case Threw => Rejected;
    Resolution(job.ticket, job.title, settlement)
  }

  /** The resolutions a drain produces for `jobs`: one per job, in the jobs' order, each with the
      job's ticket and title and fulfilled with the translation of that title (or `null`). */
  function SettleAll(jobs: seq<Job>, service: string -> ServiceReply): (r: seq<Resolution>)
    ensures |r| == |jobs|
    ensures forall i :: 0 <= i < |jobs| ==>
      && r[i].ticket == jobs[i].ticket
      && r[i].title == jobs[i].title
      && r[i].settlement == Fulfilled(TranslateToUkrainian(service(jobs[i].title)).value)
  {
    var r := seq(|jobs|, i requires 0 <= i < |jobs| => Settle(jobs[i], service(jobs[i].title)));
    assert forall i :: 0 <= i < |jobs| ==> r[i] == Settle(jobs[i], service(jobs[i].title));
    r
  }

  class TranslateQueue {
    /** Pending jobs, oldest first (`this.queue`). */
    var queue: seq<Job>
    const maxRequestsPerSecond: nat
    /** Milliseconds waited after every job. */
    const interval: real
    /** Whether a drain loop is active (`this.isRunning`). */
    var isRunning: bool
    /** Every promise settled so far, in the order the drain settled them. */
    var resolutions: seq<Resolution>
    /** Number of `interval` waits performed so far. */
    var waits: nat
    /** The ticket the next `enqueue` hands out. */
    var nextTicket: nat
    /** Every title ever enqueued, in enqueue order. */
    ghost var submitted: seq<string>

    /** The queue's invariant: every enqueued job is either settled or pending, exactly once, and
        in enqueue order; every settled job was resolved (never rejected); one wait follows each
        settled job; an idle queue has nothing pending. */
    ghost predicate Valid()
      reads this
    {
      && |resolutions| + |queue| == nextTicket == |submitted|
      && (forall i :: 0 <= i < |resolutions| ==>
            resolutions[i].ticket == i && resolutions[i].title == submitted[i]
            && resolutions[i].settlement.Fulfilled?)
      && (forall j :: 0 <= j < |queue| ==>
            queue[j].ticket == |resolutions| + j && queue[j].title == submitted[|resolutions| + j])
      && waits == |resolutions|
      && (!isRunning ==> queue == [])
    }

    /** `new TranslateQueue(maxRequestsPerSecond)`. */
    constructor (maxRequestsPerSecond: nat)
      requires maxRequestsPerSecond > 0
      ensures Valid()
      ensures queue == [] && !isRunning && resolutions == [] && waits == 0 && submitted == []
      ensures this.maxRequestsPerSecond == maxRequestsPerSecond
      ensures interval == 1000.0 / (maxRequestsPerSecond as real)
    {
      queue := [];
      this.maxRequestsPerSecond := maxRequestsPerSecond;
      interval := 1000.0 / (maxRequestsPerSecond as real);
      isRunning := false;
      resolutions := [];
      waits := 0;
      nextTicket := 0;
      submitted := [];
    }

    /** `enqueue(title)`: append one job at the tail and start a drain when none is active.
        `ticket` identifies the promise returned to the caller. */
    method Enqueue(title: string) returns (ticket: nat, started: bool)
      requires Valid()
      modifies this
      ensures Valid()
      ensures ticket == old(nextTicket)
      ensures queue == old(queue) + [Job(ticket, title)]
      ensures submitted == old(submitted) + [title]
      ensures resolutions == old(resolutions) && waits == old(waits)
      ensures started == !old(isRunning) && isRunning
    {
      ticket := nextTicket;
      queue := queue + [Job(ticket, title)];
      nextTicket := nextTicket + 1;
      submitted := submitted + [title];
      started := false;
      if !isRunning {
        started := StartDrain();
      }
    }

    /** The entry of `processQueue`: a no-op when a drain is already running, so that at most
        one drain loop exists. */
    method StartDrain() returns (started: bool)
      modifies this`isRunning
      ensures started == !old(isRunning)
      ensures isRunning
    {
      if isRunning {
        return false;
      }
      isRunning := true;
      started := true;
    }

    /** One turn of the drain loop of `processQueue`: with jobs pending, shift the oldest, settle
        it with its translation and wait once; with none, leave the loop and become idle. */
    method Step(service: string -> ServiceReply)
      requires Valid() && isRunning
      modifies this
      ensures Valid()
      ensures submitted == old(submitted) && nextTicket == old(nextTicket)
      ensures old(queue) == [] ==>
        !isRunning && queue == [] && resolutions == old(resolutions) && waits == old(waits)
      ensures old(queue) != [] ==>
        && isRunning
        && queue == old(queue)[1..]
        && resolutions == old(resolutions) + [Settle(old(queue)[0], service(old(queue)[0].title))]
        && waits == old(waits) + 1
    {
      if queue == [] {
        isRunning := false;
        return;
      }
      var job := queue[0];
      queue := queue[1..];
      var reply := service(job.title);
      resolutions := resolutions + [Settle(job, reply)];
      waits := waits + 1;
    }

    /** The active drain runs to completion with no enqueue in between: every pending job is
        settled in FIFO order, followed by one wait each, and the queue ends idle and empty. */
    method Drain(service: string -> ServiceReply)
      requires Valid() && isRunning
      modifies this
      ensures Valid()
      ensures !isRunning && queue == []
      ensures resolutions == old(resolutions) + SettleAll(old(queue), service)
      ensures waits == old(waits) + |old(queue)|
      ensures submitted == old(submitted) && nextTicket == old(nextTicket)
    {
      ghost var jobs := old(queue);
      ghost var k := 0;
      while isRunning
        invariant Valid()
        invariant 0 <= k <= |jobs|
        invariant queue == jobs[k..]
        invariant resolutions == old(resolutions) + SettleAll(jobs[..k], service)
        invariant waits == old(waits) + k
        invariant !isRunning ==> k == |jobs|
        invariant submitted == old(submitted) && nextTicket == old(nextTicket)
        decreases |queue| + (if isRunning then 1 else 0)
      {
        Step(service);
        if k < |jobs| && isRunning {
          assert jobs[..k + 1] == jobs[..k] + [jobs[k]];
          assert SettleAll(jobs[..k + 1], service) == SettleAll(jobs[..k], service) + [Settle(jobs[k], service(jobs[k].title))];
          k := k + 1;
        }
      }
      assert jobs[..k] == jobs;
    }
  }

  /** Every enqueued job is settled or pending exactly once: settled tickets strictly increase,
      and each precedes every pending ticket. */
  lemma TicketsInOrder(q: TranslateQueue)
    requires q.Valid()
    ensures forall i, j :: 0 <= i < j < |q.resolutions| ==> q.resolutions[i].ticket < q.resolutions[j].ticket
    ensures forall i, j :: 0 <= i < |q.resolutions| && 0 <= j < |q.queue| ==>
      q.resolutions[i].ticket < q.queue[j].ticket
    ensures forall i, j :: 0 <= i < j < |q.queue| ==> q.queue[i].ticket < q.queue[j].ticket
  {
  }
}
