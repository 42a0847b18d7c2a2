/** The step queue of the richer variant: a pending direction (-1 left, 0 none, 1 right) and a
    count of quarter-unit steps still to take, filled by the up/down buttons and drained one step
    per tick. */
module StepQueue {

  const MaxPending: int := 60
  /** Distance, in grid units, of one queued step. */
  const SingleStep: real := 0.25
  /** Steps queued by a single click and by one repeat of a held button. */
  const ClickSteps: int := 1
  const RepeatSteps: int := 4

  datatype Queue = Queue(dir: int, count: int)

  const Idle: Queue := Queue(0, 0)

  /** The queue invariant: the count is within bounds, it is zero exactly when no direction is
      pending, and a pending direction is the one the character faces. */
  predicate Consistent(q: Queue, facing: int) {
    && 0 <= q.count <= MaxPending
    && q.dir in {-1, 0, 1}
    && (q.count == 0 <==> q.dir == 0)
    && (q.dir != 0 ==> q.dir == facing)
  }

  /** Facing and queue after a movement button press. */
  datatype Turn = Turn(facing: int, queue: Queue)

  /** An up (`wanted` = -1) or down (`wanted` = 1) press queuing `amount` steps: a press against
      the current facing only turns the character round and empties the queue; otherwise the
      steps are added in the pressed direction, capped at MaxPending. */
  function Press(facing: int, q: Queue, wanted: int, amount: int): (t: Turn)
    requires Consistent(q, facing)
    requires facing in {-1, 1} && wanted in {-1, 1}
    requires amount in {ClickSteps, RepeatSteps}
    ensures Consistent(t.queue, t.facing)
    ensures t.facing == wanted
    ensures facing != wanted ==> t.queue == Idle
    ensures facing == wanted ==>
      && t.queue.dir == wanted
      && t.queue.count == (if q.count + amount > MaxPending then MaxPending else q.count + amount)
    ensures facing == wanted ==> q.count < t.queue.count || t.queue.count == MaxPending
  {
    if facing == -wanted then Turn(wanted, Idle)
    else
      var c := q.count + amount;
      Turn(wanted, Queue(wanted, if c > MaxPending then MaxPending else c))
  }

  /** Whether the drain stage of a tick attempts a step. */
  predicate Pending(q: Queue) {
    q.count > 0 && q.dir != 0
  }

  /** The queue after a tick has attempted one step: the count drops by one whether or not the
      step was taken, and the direction is forgotten when nothing remains. */
  function Consume(q: Queue): (r: Queue)
    requires Pending(q)
    ensures r.count == q.count - 1
    ensures r.dir == 0 || r.dir == q.dir
    ensures forall facing :: Consistent(q, facing) ==> Consistent(r, facing)
  {
    var c := q.count - 1;
    Queue(if c <= 0 then 0 else q.dir, c)
  }
}
