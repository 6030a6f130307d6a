/**
 * src/strategy/linear_memo.rs: the linear sequence computed incrementally.
 * Each worker thread keeps one memo entry (secret scalar, public point);
 * its first call initialises the entry by one multiplication, every later
 * call adds one to the scalar and G to the point.
 *
 * The memo is modelled as a map shared by the sequential run of all calls,
 * as the code intends; which worker makes each call is the `schedule`.
 */
module LinearMemo {
  import opened Wrappers
  import opened Bytes
  import opened Secp256k1
  import opened Utils
  import opened Strategy
  import Linear

  /** The strategy's state; the multiplication tables are not modelled. */
  datatype LinearMemoStrategy = LinearMemoStrategy(maxIters: nat, seed: Scalar, init: Jacobian)

  /**
   * `LinearMemoStrategy::new`: panic with "overflow" unless the 32 seed
   * bytes denote a number below n; otherwise keep that number as the seed
   * and seed·G as `init`.
   */
  method New(maxIters: nat, seedBytes: Bytes32) returns (r: Result<LinearMemoStrategy, Panic>)
    ensures r.Failure? <==> BeValue(seedBytes) >= N
    ensures r.Failure? ==> r.error == SeedOverflow
    ensures r.Success? ==> r.value.maxIters == maxIters && r.value.seed == BeValue(seedBytes)
    ensures r.Success? ==> r.value.init == EcmultGen(r.value.seed)
  {
    var seed: Scalar := 0;
    var decoded := SetB32(seedBytes);
    seed := decoded.0;
    if decoded.1 {
      return Failure(SeedOverflow);
    }
    var init := G;
    init := EcmultGen(seed);
    return Success(LinearMemoStrategy(maxIters, seed, init));
  }

  /** `opt_len`: the number of items, `max_iters`. */
  function OptLen(s: LinearMemoStrategy): (r: Option<nat>)
    ensures forall curve: Curve, numThreads: nat, schedule: seq<nat> |
      numThreads >= 1 && |schedule| == s.maxIters :: r == Some(|RunItems(0, s.maxIters / numThreads, curve, schedule)|)
  {
    Some(s.maxIters)
  }

  /**
   * The scalar of worker t's call number k (from 0): its starting point
   * `from_int((work_size * t) as u32)`, offset by `base`, advanced k times
   * by one. The code as written starts from base 0.
   */
  function MemoScalar(base: Scalar, workSize: nat, t: nat, k: nat): Scalar
  {
    (base + AsU32(workSize * t) + k) % N
  }

  /** A worker's first call starts from `base` plus its offset. */
  lemma MemoScalarFirst(base: Scalar, workSize: nat, t: nat)
    ensures MemoScalar(base, workSize, t, 0) == ScalarAdd(base, ScalarFromInt(AsU32(workSize * t)))
  {
  }

  /** Each later call advances the scalar by one. */
  lemma MemoScalarNext(base: Scalar, workSize: nat, t: nat, k: nat)
    ensures ScalarAdd(MemoScalar(base, workSize, t, k), 1) == MemoScalar(base, workSize, t, k + 1)
  {
    var x := base + AsU32(workSize * t);
    ModAddOne(x + k);
  }

  /** How many calls worker t has made so far. */
  function CallCount(calls: map<nat, nat>, t: nat): nat
  {
    if t in calls then calls[t] else 0
  }

  /**
   * Every entry's point is its scalar times G, and worker t's entry holds
   * the scalar of its latest call.
   */
  ghost predicate MemoInvariant(base: Scalar, workSize: nat, entries: map<nat, (Scalar, Jacobian)>, calls: map<nat, nat>)
  {
    && entries.Keys == calls.Keys
    && (forall t | t in entries :: entries[t].1 == EcmultGen(entries[t].0))
    && (forall t | t in entries :: calls[t] >= 1 && entries[t].0 == MemoScalar(base, workSize, t, calls[t] - 1))
  }

  /** Storing worker t's entry for its call number k keeps the invariant. */
  lemma MemoInvariantUpdate(base: Scalar, workSize: nat, entries: map<nat, (Scalar, Jacobian)>, calls: map<nat, nat>,
                            t: nat, k: nat, entry: (Scalar, Jacobian))
    requires MemoInvariant(base, workSize, entries, calls)
    requires entry.0 == MemoScalar(base, workSize, t, k) && entry.1 == EcmultGen(entry.0)
    ensures MemoInvariant(base, workSize, entries[t := entry], calls[t := k + 1])
  {
    var e, c := entries[t := entry], calls[t := k + 1];
    forall u | u in e
      ensures e[u].1 == EcmultGen(e[u].0)
      ensures c[u] >= 1 && e[u].0 == MemoScalar(base, workSize, u, c[u] - 1)
    {
      if u != t {
        assert e[u] == entries[u] && c[u] == calls[u];
      }
    }
  }

  /** The per-worker memo: one (scalar, point) entry per worker that has made a call. */
  class Memo {
    const base: Scalar
    const workSize: nat
    var entries: map<nat, (Scalar, Jacobian)>
    ghost var calls: map<nat, nat>

    /** The memo invariant on the current entries and call counts. */
    ghost predicate Valid()
      reads this
    {
      MemoInvariant(base, workSize, entries, calls)
    }

    constructor (base: Scalar, workSize: nat)
      ensures Valid()
      ensures this.base == base && this.workSize == workSize
      ensures entries == map[] && calls == map[]
    {
      this.base := base;
      this.workSize := workSize;
      entries := map[];
      calls := map[];
    }

    /**
     * One call by worker t (`entry(..).and_modify(..).or_insert_with(..)`
     * followed by `get`): a known worker's entry advances by one and by G,
     * a new worker's entry starts at its offset times G; no other entry
     * changes, and the entry after the update is returned.
     */
    method Visit(t: nat) returns (sk: Scalar, pk: Jacobian)
      requires Valid()
      modifies this
      ensures Valid()
      ensures entries == old(entries)[t := (sk, pk)]
      ensures calls == old(calls)[t := CallCount(old(calls), t) + 1]
      ensures t in old(entries) ==> sk == ScalarAdd(old(entries)[t].0, 1) && pk == AddG(old(entries)[t].1)
      ensures t !in old(entries) ==> sk == ScalarAdd(base, ScalarFromInt(AsU32(workSize * t))) && pk == EcmultGen(sk)
      ensures sk == MemoScalar(base, workSize, t, CallCount(old(calls), t)) && pk == EcmultGen(sk)
    {
      var one: Scalar := 1;
      var k := CallCount(calls, t);
      var entry: (Scalar, Jacobian);
      if t in entries {
        var (s0, p0) := entries[t];
        MemoScalarNext(base, workSize, t, k - 1);
        entry := (ScalarAdd(s0, one), AddG(p0));
      } else {
        var s0 := ScalarAdd(base, ScalarFromInt(AsU32(workSize * t)));
        MemoScalarFirst(base, workSize, t);
        var p0 := EcmultGen(s0);
        entry := (s0, p0);
      }
      assert entry.0 == MemoScalar(base, workSize, t, k) && entry.1 == EcmultGen(entry.0);
      MemoInvariantUpdate(base, workSize, entries, calls, t, k, entry);
      entries := entries[t := entry];
      calls := calls[t := k + 1];
      sk, pk := entries[t].0, entries[t].1;
    }
  }

  /** How many times worker t occurs in a schedule. */
  function Count(schedule: seq<nat>, t: nat): nat
  {
    if schedule == [] then 0
    else Count(schedule[..|schedule| - 1], t) + (if schedule[|schedule| - 1] == t then 1 else 0)
  }

  /**
   * The item of call j: worker `schedule[j]`'s call number "how often it
   * occurred before j", with its point that scalar times G.
   */
  function RunItem(base: Scalar, workSize: nat, curve: Curve, schedule: seq<nat>, j: nat): Item
    requires j < |schedule|
  {
    var sk := MemoScalar(base, workSize, schedule[j], Count(schedule[..j], schedule[j]));
    IntoKeyPair(curve, sk, EcmultGen(sk))
  }

  function RunItems(base: Scalar, workSize: nat, curve: Curve, schedule: seq<nat>): (r: seq<Item>)
  {
    seq(|schedule|, j requires 0 <= j < |schedule| => RunItem(base, workSize, curve, schedule, j))
  }

  /**
   * The calls in schedule order against one memo: call j yields worker
   * `schedule[j]`'s scalar for its k-th call, k counting its earlier calls.
   */
  method Run(base: Scalar, workSize: nat, curve: Curve, schedule: seq<nat>) returns (items: seq<Item>)
    ensures |items| == |schedule|
    ensures forall j | 0 <= j < |schedule| ::
      var sk := MemoScalar(base, workSize, schedule[j], Count(schedule[..j], schedule[j]));
      items[j] == IntoKeyPair(curve, sk, EcmultGen(sk))
  {
    var memo := new Memo(base, workSize);
    items := [];
    for j := 0 to |schedule|
      invariant memo.Valid() && memo.base == base && memo.workSize == workSize
      invariant forall t :: CallCount(memo.calls, t) == Count(schedule[..j], t)
      invariant |items| == j
      invariant forall i | 0 <= i < j :: items[i] == RunItem(base, workSize, curve, schedule, i)
    {
      var t := schedule[j];
      var sk, pk := memo.Visit(t);
      assert sk == MemoScalar(base, workSize, t, Count(schedule[..j], t)) && pk == EcmultGen(sk);
      assert IntoKeyPair(curve, sk, pk) == RunItem(base, workSize, curve, schedule, j);
      items := items + [IntoKeyPair(curve, sk, pk)];
      assert schedule[..j + 1][..j] == schedule[..j];
    }
  }

  /**
   * `drive_unindexed` as written: `max_iters` calls, `work_size` the
   * integer quotient of `max_iters` by the thread count, no seed offset.
   */
  method DriveUnindexed(s: LinearMemoStrategy, curve: Curve, numThreads: nat, schedule: seq<nat>) returns (items: seq<Item>)
    requires numThreads >= 1
    requires |schedule| == s.maxIters
    ensures items == RunItems(0, s.maxIters / numThreads, curve, schedule)
  {
    items := Run(0, s.maxIters / numThreads, curve, schedule);
  }

  /**
   * The evidently intended `drive_unindexed`: every worker's scalars start
   * from the seed plus its offset.
   */
  method DriveUnindexedSeeded(s: LinearMemoStrategy, curve: Curve, numThreads: nat, schedule: seq<nat>) returns (items: seq<Item>)
    requires numThreads >= 1
    requires |schedule| == s.maxIters
    ensures items == RunItems(s.seed, s.maxIters / numThreads, curve, schedule)
  {
    items := Run(s.seed, s.maxIters / numThreads, curve, schedule);
  }

  /** A schedule in which only worker 0 runs counts j calls before call j. */
  lemma {:induction false} CountSingleWorker(schedule: seq<nat>, j: nat)
    requires forall i | 0 <= i < |schedule| :: schedule[i] == 0
    requires j <= |schedule|
    ensures Count(schedule[..j], 0) == j
  {
    if j > 0 {
      CountSingleWorker(schedule, j - 1);
      assert schedule[..j][..j - 1] == schedule[..j - 1];
    }
  }

  /**
   * With the seed as base and a single worker, the memoised run yields the
   * linear strategy's items, up to 2^32 of them.
   */
  lemma SeededSingleWorkerIsLinear(s: LinearMemoStrategy, curve: Curve, schedule: seq<nat>)
    requires |schedule| == s.maxIters <= Two32
    requires forall i | 0 <= i < |schedule| :: schedule[i] == 0
    ensures RunItems(s.seed, s.maxIters / 1, curve, schedule) ==
            Linear.Items(Linear.LinearStrategy(s.maxIters, s.seed, s.init), curve)
  {
    var lin := Linear.LinearStrategy(s.maxIters, s.seed, s.init);
    assert s.maxIters / 1 == s.maxIters;
    forall j | 0 <= j < |schedule|
      ensures RunItems(s.seed, s.maxIters, curve, schedule)[j] == Linear.Items(lin, curve)[j]
    {
      CountSingleWorker(schedule, j);
      assert s.maxIters * 0 == 0;
      assert MemoScalar(s.seed, s.maxIters, 0, j) == (s.seed + j) % N;
      Linear.ElementIsSeedPlusIndex(lin, j);
    }
  }

  /**
   * As written, worker 0's first call has scalar zero whatever the seed;
   * its secret key does not parse, so that item is a panic.
   */
  lemma WorkerZeroFirstCallPanics(workSize: nat, curve: Curve, schedule: seq<nat>, j: nat)
    requires j < |schedule| && schedule[j] == 0 && Count(schedule[..j], 0) == 0
    ensures RunItem(0, workSize, curve, schedule, j) == Failure(SecretKeyUnparsable)
  {
  }

  /**
   * As written, one worker's first item differs from the linear strategy's
   * whenever the seed is not zero: the seed is never added.
   */
  lemma MemoIgnoresSeed(s: LinearMemoStrategy, curve: Curve, schedule: seq<nat>)
    requires Sound(curve)
    requires s.seed != 0
    requires |schedule| == s.maxIters >= 1 && schedule[0] == 0
    ensures RunItems(0, s.maxIters / 1, curve, schedule)[0] !=
            Linear.Items(Linear.LinearStrategy(s.maxIters, s.seed, s.init), curve)[0]
  {
    Linear.ItemConverts(Linear.LinearStrategy(s.maxIters, s.seed, s.init), curve, 0);
  }
}
