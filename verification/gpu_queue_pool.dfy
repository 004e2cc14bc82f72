/** The pool of GPU command queues (`GpuQueuePool`): a fixed number of queues per GPU, flattened
    round-robin across the GPUs, handed out first-free and given back by identity.

    A queue is an opaque handle; the handle `Queue(g, k)` is the k-th queue made for GPU g, so
    distinct queues are distinct values.  Device discovery is a parameter (the number of GPUs
    present). */
module GpuQueuePool {
  import opened Wrappers
  import opened JavaInt

  datatype Queue = Queue(gpu: nat, slot: nat)

  datatype Pool = Pool(
    numQueuesPerGpu: int,
    queuesByGpu: seq<seq<Queue>>,
    queues: seq<Queue>,
    checkedOut: seq<bool>)

  datatype Error = NoQueueAvailable | NegativeCapacity

  predicate Valid(p: Pool) {
    |p.checkedOut| == |p.queues|
  }

  function Min(a: int, b: int): int {
    if a <= b then a else b
  }

  /** The queues made for each GPU: `perGpu` of them (none for a nonpositive count). */
  function QueuesByGpu(numGpus: nat, perGpu: int): (r: seq<seq<Queue>>)
    ensures |r| == numGpus
    ensures forall g | 0 <= g < numGpus :: |r[g]| == (if perGpu > 0 then perGpu else 0)
    ensures forall g, k | 0 <= g < numGpus && 0 <= k < |r[g]| :: r[g][k] == Queue(g, k)
  {
    var n := if perGpu > 0 then perGpu else 0;
    seq(numGpus, g requires 0 <= g < numGpus => seq(n, k requires 0 <= k < n => Queue(g, k)))
  }

  /** `queues` lists the first `rounds` queues of every GPU, round by round: entry
      `a * numGpus + b` is the a-th queue of GPU b. */
  predicate Flattened(queues: seq<Queue>, byGpu: seq<seq<Queue>>, rounds: nat, numGpus: nat) {
    && |queues| == rounds * numGpus
    && |byGpu| == numGpus
    && (forall b | 0 <= b < numGpus :: rounds <= |byGpu[b]|)
    && (forall a, b | 0 <= a < rounds && 0 <= b < numGpus ::
          a * numGpus + b < |queues| && queues[a * numGpus + b] == byGpu[b][a])
  }

  /** The constructor: use at most the GPUs present, make the queues of each, and flatten them so
      that the first queue of every GPU comes first, then the second of every GPU, and so on.
      Initially nothing is checked out.  A negative GPU count survives the `min` with the number
      present and is refused as the capacity of the per-GPU list; the flattened list is then
      allocated with the 32-bit product of the GPU count and the queues per GPU as its capacity,
      which is refused when negative (some GPUs and a negative queue count, or an overflow). */
  method NewPool(requestedGpus: int, availableGpus: nat, numQueuesPerGpu: int) returns (r: Result<Pool, Error>)
    ensures r.Failure? <==>
      requestedGpus < 0 || Wrap32(Min(requestedGpus, availableGpus) * numQueuesPerGpu) < 0
    ensures (&& requestedGpus >= 0 && Min(requestedGpus, availableGpus) > 0 && numQueuesPerGpu < 0
             && IsInt32(Min(requestedGpus, availableGpus) * numQueuesPerGpu)) ==> r.Failure?
    ensures (&& requestedGpus >= 0 && numQueuesPerGpu >= 0
             && IsInt32(Min(requestedGpus, availableGpus) * numQueuesPerGpu)) ==> r.Success?
    ensures r.Failure? ==> r.error == NegativeCapacity
    ensures r.Success? ==>
      && |r.value.queuesByGpu| == Min(requestedGpus, availableGpus)
      && r.value.queuesByGpu == QueuesByGpu(Min(requestedGpus, availableGpus), numQueuesPerGpu)
      && Flattened(r.value.queues, r.value.queuesByGpu, if numQueuesPerGpu > 0 then numQueuesPerGpu else 0,
                   Min(requestedGpus, availableGpus))
      && Valid(r.value) && (forall i | 0 <= i < |r.value.checkedOut| :: !r.value.checkedOut[i])
      && Distinct(r.value.queues)
  {
    if requestedGpus < 0 {
      return Failure(NegativeCapacity);
    }
    var numGpus: nat := Min(requestedGpus, availableGpus);
    if Wrap32(numGpus * numQueuesPerGpu) < 0 {
      return Failure(NegativeCapacity);
    }
    var byGpu := QueuesByGpu(numGpus, numQueuesPerGpu);
    var perGpu: nat := if numQueuesPerGpu > 0 then numQueuesPerGpu else 0;
    var queues: seq<Queue> := [];
    var i: nat := 0;
    while i < perGpu
      invariant i <= perGpu
      invariant Flattened(queues, byGpu, i, numGpus)
    {
      var round := Round(byGpu, i);
      RoundAppend(queues, round, i, numGpus, byGpu);
      queues := queues + round;
      i := i + 1;
    }
    assert byGpu == QueuesByGpu(numGpus, perGpu);
    PoolQueuesDistinct(numGpus, perGpu, queues);
    r := Success(Pool(numQueuesPerGpu, byGpu, queues, seq(|queues|, _ => false)));
  }

  /** The i-th queue of every GPU, in GPU order. */
  method Round(byGpu: seq<seq<Queue>>, i: nat) returns (round: seq<Queue>)
    requires forall b | 0 <= b < |byGpu| :: i < |byGpu[b]|
    ensures |round| == |byGpu|
    ensures forall b | 0 <= b < |byGpu| :: round[b] == byGpu[b][i]
  {
    round := [];
    var j := 0;
    while j < |byGpu|
      invariant 0 <= j <= |byGpu|
      invariant |round| == j
      invariant forall b | 0 <= b < j :: round[b] == byGpu[b][i]
    {
      round := round + [byGpu[j][i]];
      j := j + 1;
    }
  }

  /** Appending the i-th round keeps the earlier rounds in place and puts the new one right after. */
  lemma RoundAppend(queues: seq<Queue>, round: seq<Queue>, i: nat, numGpus: nat, byGpu: seq<seq<Queue>>)
    requires Flattened(queues, byGpu, i, numGpus)
    requires |round| == numGpus && forall b | 0 <= b < numGpus :: i < |byGpu[b]|
    requires forall b | 0 <= b < numGpus :: round[b] == byGpu[b][i]
    ensures Flattened(queues + round, byGpu, i + 1, numGpus)
  {
    assert |queues + round| == (i + 1) * numGpus;
    forall a, b | 0 <= a < i + 1 && 0 <= b < numGpus
      ensures a * numGpus + b < |queues + round| && (queues + round)[a * numGpus + b] == byGpu[b][a]
    {
      if a < i {
        assert (a + 1) * numGpus <= i * numGpus by { MulMono(a + 1, i, numGpus); }
      } else {
        assert a * numGpus + b == |queues| + b;
      }
    }
  }

  lemma MulMono(a: nat, b: nat, n: nat)
    requires a <= b
    ensures a * n <= b * n
  {
  }

  /** The lowest index at or after `from` whose flag is clear. */
  function FirstFree(flags: seq<bool>, from: nat): (r: Option<nat>)
    requires from <= |flags|
    ensures r.None? <==> forall i | from <= i < |flags| :: flags[i]
    ensures r.Some? ==>
      && from <= r.value < |flags| && !flags[r.value]
      && (forall i | from <= i < r.value :: flags[i])
    decreases |flags| - from
  {
    if from == |flags| then None
    else if !flags[from] then Some(from)
    else FirstFree(flags, from + 1)
  }

  /** `checkout()`: the lowest-index free queue, now marked; refused when every queue is out. */
  function Checkout(p: Pool): (r: Result<(Pool, Queue), Error>)
    requires Valid(p)
    ensures r.Failure? <==> forall i | 0 <= i < |p.queues| :: p.checkedOut[i]
    ensures r.Success? ==> exists k | 0 <= k < |p.queues| ::
      && !p.checkedOut[k]
      && (forall i | 0 <= i < k :: p.checkedOut[i])
      && r.value.1 == p.queues[k]
      && r.value.0 == p.(checkedOut := p.checkedOut[k := true])
  {
    match FirstFree(p.checkedOut, 0)
    case None => Failure(NoQueueAvailable)
    case Some(k) => Success((p.(checkedOut := p.checkedOut[k := true]), p.queues[k]))
  }

  /** `release(queue)`: every entry holding this very queue becomes free; nothing else changes. */
  function Release(p: Pool, q: Queue): (r: Pool)
    requires Valid(p)
    ensures Valid(r) && r.queues == p.queues && r.queuesByGpu == p.queuesByGpu
    ensures forall i | 0 <= i < |p.queues| :: r.checkedOut[i] == (if p.queues[i] == q then false else p.checkedOut[i])
  {
    p.(checkedOut := seq(|p.checkedOut|, i requires 0 <= i < |p.checkedOut| =>
                           if p.queues[i] == q then false else p.checkedOut[i]))
  }

  predicate Distinct(s: seq<Queue>) {
    forall i, j | 0 <= i < j < |s| :: s[i] != s[j]
  }

  /** The pool's queues are pairwise distinct handles. */
  lemma PoolQueuesDistinct(numGpus: nat, perGpu: nat, queues: seq<Queue>)
    requires Flattened(queues, QueuesByGpu(numGpus, perGpu), perGpu, numGpus)
    ensures Distinct(queues)
  {
    var byGpu := QueuesByGpu(numGpus, perGpu);
    forall x, y | 0 <= x < y < |queues| ensures queues[x] != queues[y] {
      var ix, jx := Decompose(x, numGpus, perGpu);
      var iy, jy := Decompose(y, numGpus, perGpu);
      assert queues[ix * numGpus + jx] == byGpu[jx][ix] == Queue(jx, ix);
      assert queues[iy * numGpus + jy] == byGpu[jy][iy] == Queue(jy, iy);
    }
  }

  /** Every index of the flattened list is some round plus some GPU. */
  lemma Decompose(x: nat, n: nat, m: nat) returns (i: nat, j: nat)
    requires x < m * n
    ensures i < m && j < n && x == i * n + j
  {
    assert n > 0;
    i, j := x / n, x % n;
    MulCancelLess(i, m, n, x);
  }

  lemma MulCancelLess(q: nat, m: nat, n: nat, x: nat)
    requires n > 0 && q * n <= x < m * n
    ensures q < m
  {
  }

  /** With distinct queues, releasing the queue just checked out restores the flags. */
  lemma CheckoutReleaseRoundTrip(p: Pool)
    requires Valid(p) && Distinct(p.queues)
    requires exists i | 0 <= i < |p.checkedOut| :: !p.checkedOut[i]
    ensures Release(Checkout(p).value.0, Checkout(p).value.1).checkedOut == p.checkedOut
  {
    var c := Checkout(p).value;
    var k :| 0 <= k < |p.queues| && !p.checkedOut[k] && c.1 == p.queues[k]
             && c.0 == p.(checkedOut := p.checkedOut[k := true]);
    var r := Release(c.0, c.1);
    forall i | 0 <= i < |p.queues| ensures r.checkedOut[i] == p.checkedOut[i] {
      if i != k {
        assert p.queues[i] != p.queues[k] by {
          if i < k { assert p.queues[i] != p.queues[k]; } else { assert p.queues[k] != p.queues[i]; }
        }
      }
    }
  }
}
