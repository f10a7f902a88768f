/**
  The CUDA kernel gemm_tiled (cuda/kernels.cu) as a machine: every thread of every thread block runs
  its own program, the threads are interleaved in any order, and a barrier can be passed once all
  threads of the block have reached it.
 */
module TiledKernel {
  import opened Gemm

  const TILE: nat := 32

  /** blockIdx.y, blockIdx.x, threadIdx.y, threadIdx.x. */
  datatype Tid = Tid(blockRow: nat, blockCol: nat, ty: nat, tx: nat) {
    function Row(): nat { blockRow * TILE + ty }
    function Col(): nat { blockCol * TILE + tx }
  }

  /** Phases alternate: 2b loads inner block b, 2b+1 accumulates it; the last even phase writes the result. */
  datatype Thread<T> = Thread(phase: nat, step: nat, acc: T)

  datatype State<!T> = State(
    ar: Arith<T>, lhs: Matrix<T>, rhs: Matrix<T>,
    threads: map<Tid, Thread<T>>, lhsTile: map<Tid, T>, rhsTile: map<Tid, T>, out: map<(nat, nat), T>)
  {
    function Inner(): nat { lhs.cols }

    /** Inner blocks: the iterations of the kernel's outer loop. */
    function Blocks(): nat { CeilTile(lhs.cols) }

    /** The last phase has one step and no barrier. */
    function Limit(phase: nat): nat {
      if phase == 2 * Blocks() then 1 else if phase % 2 == 0 then 2 else TILE
    }

    predicate InGrid(t: Tid) {
      t.blockRow < CeilTile(lhs.rows) && t.blockCol < CeilTile(rhs.cols) && t.ty < TILE && t.tx < TILE
    }

    ghost predicate Shaped() {
      Compatible(lhs, rhs) && forall t :: t in threads <==> InGrid(t)
    }
  }

  function CeilTile(n: nat): nat {
    (n + TILE - 1) / TILE
  }

  // ---------- padding ----------

  function PadLhs<T>(ar: Arith<T>, lhs: Matrix<T>, r: nat, k: nat): T
    requires lhs.Ok()
  {
    if r < lhs.rows && k < lhs.cols then lhs.Get(r, k) else ar.zero
  }

  function PadRhs<T>(ar: Arith<T>, rhs: Matrix<T>, k: nat, c: nat): T
    requires rhs.Ok()
  {
    if k < rhs.rows && c < rhs.cols then rhs.Get(k, c) else ar.zero
  }

  /** The fold over the padded operands. */
  function PaddedDot<T>(ar: Arith<T>, lhs: Matrix<T>, rhs: Matrix<T>, r: nat, c: nat, n: nat): T
    requires Compatible(lhs, rhs)
  {
    if n == 0 then ar.zero
    else ar.add(PaddedDot(ar, lhs, rhs, r, c, n - 1), ar.mul(PadLhs(ar, lhs, r, n - 1), PadRhs(ar, rhs, n - 1, c)))
  }

  /** Adding the product of two zeros n times. */
  function AddZeros<T>(ar: Arith<T>, x: T, n: nat): T {
    if n == 0 then x else ar.add(AddZeros(ar, x, n - 1), ar.mul(ar.zero, ar.zero))
  }

  /** Padding adds zero products after the last real one and nothing else. */
  lemma {:induction false} PaddedIsDotPlusZeros<T>(ar: Arith<T>, lhs: Matrix<T>, rhs: Matrix<T>, r: nat, c: nat, n: nat)
    requires Compatible(lhs, rhs) && r < lhs.rows && c < rhs.cols
    ensures PaddedDot(ar, lhs, rhs, r, c, n)
      == AddZeros(ar, Dot(ar, lhs, rhs, r, c, Min(n, lhs.cols)), n - Min(n, lhs.cols))
    decreases n
  {
    if n > 0 {
      PaddedIsDotPlusZeros(ar, lhs, rhs, r, c, n - 1);
    }
  }

  lemma {:induction false} ZerosVanish<T(!new)>(ar: Arith<T>, x: T, n: nat)
    requires forall y :: ar.add(y, ar.mul(ar.zero, ar.zero)) == y
    ensures AddZeros(ar, x, n) == x
  {
    if n > 0 { ZerosVanish(ar, x, n - 1); }
  }

  // ---------- steps ----------

  datatype Step = LoadLhs(t: Tid) | LoadRhs(t: Tid) | Accumulate(t: Tid) | Pass(t: Tid) | Write(t: Tid)

  predicate SameBlock(t: Tid, u: Tid) {
    t.blockRow == u.blockRow && t.blockCol == u.blockCol
  }

  /** __syncthreads: everybody in the block has arrived at this barrier or is already past it. */
  ghost predicate AllArrived<T>(s: State<T>, t: Tid)
    requires t in s.threads
  {
    forall u :: u in s.threads && SameBlock(t, u) ==>
      s.threads[u].phase > s.threads[t].phase
      || (s.threads[u].phase == s.threads[t].phase && s.threads[u].step == s.Limit(s.threads[u].phase))
  }

  ghost predicate Enabled<T>(s: State<T>, a: Step) {
    s.Shaped() && a.t in s.threads &&
    var x := s.threads[a.t];
    match a
    case LoadLhs(t) => x.phase < 2 * s.Blocks() && x.phase % 2 == 0 && x.step == 0
    case LoadRhs(t) => x.phase < 2 * s.Blocks() && x.phase % 2 == 0 && x.step == 1
    case Accumulate(t) =>
      x.phase < 2 * s.Blocks() && x.phase % 2 == 1 && x.step < TILE
      && t.(tx := x.step) in s.lhsTile && t.(ty := x.step) in s.rhsTile
    case Pass(t) => x.phase < 2 * s.Blocks() && x.step == s.Limit(x.phase) && AllArrived(s, t)
    case Write(t) => x.phase == 2 * s.Blocks() && x.step == 0
  }

  ghost function After<T>(s: State<T>, a: Step): State<T>
    requires Enabled(s, a)
  {
    var t := a.t;
    var x := s.threads[t];
    var offset := x.phase / 2 * TILE;
    var next := s.(threads := s.threads[t := x.(step := x.step + 1)]);
    match a
    case LoadLhs(_) => next.(lhsTile := s.lhsTile[t := PadLhs(s.ar, s.lhs, t.Row(), offset + t.tx)])
    case LoadRhs(_) => next.(rhsTile := s.rhsTile[t := PadRhs(s.ar, s.rhs, offset + t.ty, t.Col())])
    case Accumulate(_) =>
      var product := s.ar.mul(s.lhsTile[t.(tx := x.step)], s.rhsTile[t.(ty := x.step)]);
      s.(threads := s.threads[t := Thread(x.phase, x.step + 1, s.ar.add(x.acc, product))])
    case Pass(_) => s.(threads := s.threads[t := Thread(x.phase + 1, 0, x.acc)])
    case Write(_) =>
      if t.Row() < s.lhs.rows && t.Col() < s.rhs.cols then next.(out := s.out[(t.Row(), t.Col()) := x.acc]) else next
  }

  // ---------- the invariant ----------

  /** What thread t has computed and what its tile entries hold. */
  ghost predicate ThreadOk<T>(s: State<T>, t: Tid)
    requires s.Shaped() && t in s.threads
  {
    var x := s.threads[t];
    var offset := x.phase / 2 * TILE;
    && x.phase <= 2 * s.Blocks() && x.step <= s.Limit(x.phase)
    && x.acc == PaddedDot(s.ar, s.lhs, s.rhs, t.Row(), t.Col(), if x.phase % 2 == 0 then offset else offset + x.step)
    && (x.phase < 2 * s.Blocks() && (x.phase % 2 == 1 || x.step >= 1) ==>
          t in s.lhsTile && s.lhsTile[t] == PadLhs(s.ar, s.lhs, t.Row(), offset + t.tx))
    && (x.phase < 2 * s.Blocks() && (x.phase % 2 == 1 || x.step >= 2) ==>
          t in s.rhsTile && s.rhsTile[t] == PadRhs(s.ar, s.rhs, offset + t.ty, t.Col()))
    && (x.phase == 2 * s.Blocks() && x.step == 1 && t.Row() < s.lhs.rows && t.Col() < s.rhs.cols ==>
          (t.Row(), t.Col()) in s.out && s.out[(t.Row(), t.Col())] == x.acc)
  }

  /** Nobody is more than one phase ahead, and then the other one waits at its barrier. */
  ghost predicate InStep<T>(s: State<T>, t: Tid, u: Tid)
    requires t in s.threads && u in s.threads
  {
    var x, y := s.threads[t], s.threads[u];
    x.phase <= y.phase || (x.phase == y.phase + 1 && y.step == s.Limit(y.phase))
  }

  /** Output elements come only from the thread they belong to. */
  ghost predicate OutOk<T>(s: State<T>) {
    forall r: nat, c: nat :: (r, c) in s.out ==>
      var t := Home(r, c);
      t in s.threads && s.threads[t].phase == 2 * s.Blocks() && s.threads[t].step == 1
      && r < s.lhs.rows && c < s.rhs.cols
  }

  ghost predicate Inv<T>(s: State<T>) {
    && s.Shaped()
    && (forall t :: t in s.threads ==> ThreadOk(s, t))
    && (forall t, u :: t in s.threads && u in s.threads && SameBlock(t, u) ==> InStep(s, t, u))
    && OutOk(s)
  }

  /** The one thread that computes element (r, c). */
  function Home(r: nat, c: nat): Tid {
    Tid(r / TILE, c / TILE, r % TILE, c % TILE)
  }

  lemma HomeIsUnique(t: Tid)
    requires t.ty < TILE && t.tx < TILE
    ensures Home(t.Row(), t.Col()) == t
  {
  }

  lemma HomeInGrid<T>(s: State<T>, r: nat, c: nat)
    requires r < s.lhs.rows && c < s.rhs.cols
    ensures s.InGrid(Home(r, c)) && Home(r, c).Row() == r && Home(r, c).Col() == c
  {
  }

  /**
    While a thread accumulates, both tile entries it reads hold the current inner block and nobody may write to the
    tiles.
   */
  lemma ReadsCurrentBlock<T>(s: State<T>, t: Tid)
    requires Inv(s) && t in s.threads
    requires var x := s.threads[t]; x.phase < 2 * s.Blocks() && x.phase % 2 == 1 && x.step < TILE
    ensures var k := s.threads[t].step; var offset := s.threads[t].phase / 2 * TILE;
      && t.(tx := k) in s.lhsTile && s.lhsTile[t.(tx := k)] == PadLhs(s.ar, s.lhs, t.Row(), offset + k)
      && t.(ty := k) in s.rhsTile && s.rhsTile[t.(ty := k)] == PadRhs(s.ar, s.rhs, offset + k, t.Col())
    ensures forall u :: u in s.threads && SameBlock(t, u) ==> !Enabled(s, LoadLhs(u)) && !Enabled(s, LoadRhs(u))
  {
    hide PaddedDot, PadLhs, PadRhs, Compatible, OutOk;
    var k := s.threads[t].step;
    var u, v := t.(tx := k), t.(ty := k);
    assert s.InGrid(u) && s.InGrid(v);
    assert InStep(s, t, u) && InStep(s, u, t) && InStep(s, t, v) && InStep(s, v, t);
    assert ThreadOk(s, u) && ThreadOk(s, v);
    forall w | w in s.threads && SameBlock(t, w) ensures !Enabled(s, LoadLhs(w)) && !Enabled(s, LoadRhs(w)) {
      NoTileRace(s, t, w);
    }
  }

  /** No thread writes a tile entry while another thread of its block still accumulates from the tiles. */
  lemma NoTileRace<T>(s: State<T>, t: Tid, u: Tid)
    requires Inv(s) && t in s.threads && u in s.threads && SameBlock(t, u)
    requires var x := s.threads[t]; x.phase < 2 * s.Blocks() && x.phase % 2 == 1 && x.step < TILE
    ensures !Enabled(s, LoadLhs(u)) && !Enabled(s, LoadRhs(u))
  {
    assert InStep(s, t, u) && InStep(s, u, t);
  }

  /** A step of t touches only its own tile entries and its own output element. */
  lemma OthersKept<T>(s: State<T>, a: Step, u: Tid)
    requires Inv(s) && Enabled(s, a) && u in s.threads && u != a.t
    ensures ThreadOk(After(s, a), u)
  {
    hide PaddedDot, PadLhs, PadRhs, Compatible, InStep, AllArrived, OutOk, CeilTile, Tid.Row, Tid.Col;
    assert ThreadOk(s, u);
    ElementsDiffer(a.t, u);
  }

  /** Different threads compute different elements. */
  lemma ElementsDiffer(t: Tid, u: Tid)
    requires t.ty < TILE && t.tx < TILE && u.ty < TILE && u.tx < TILE && t != u
    ensures (t.Row(), t.Col()) != (u.Row(), u.Col())
  {
    HomeIsUnique(t);
    HomeIsUnique(u);
  }

  lemma AccumulateOwn<T>(s: State<T>, a: Step)
    requires Inv(s) && Enabled(s, a) && a.Accumulate?
    ensures ThreadOk(After(s, a), a.t)
  {
    hide PadLhs, PadRhs, Compatible, InStep, AllArrived, OutOk, CeilTile;
    assert ThreadOk(s, a.t);
    ReadsCurrentBlock(s, a.t);
  }

  lemma OwnStep<T>(s: State<T>, a: Step)
    requires Inv(s) && Enabled(s, a)
    ensures ThreadOk(After(s, a), a.t)
  {
    hide PadLhs, PadRhs, PaddedDot, Compatible, InStep, AllArrived, OutOk, CeilTile;
    assert ThreadOk(s, a.t);
    if a.Accumulate? { AccumulateOwn(s, a); }
  }

  lemma StaysInStep<T>(s: State<T>, a: Step, t: Tid, u: Tid)
    requires Inv(s) && Enabled(s, a) && t in s.threads && u in s.threads && SameBlock(t, u)
    ensures InStep(After(s, a), t, u)
  {
    hide After, Enabled, Inv, CeilTile;
    assert InStep(s, t, u) && InStep(s, u, t) by { BothInStep(s, t, u); }
    ThreadRange(s, t);
    ThreadRange(s, u);
    Moves(s, a);
  }

  lemma BothInStep<T>(s: State<T>, t: Tid, u: Tid)
    requires Inv(s) && t in s.threads && u in s.threads && SameBlock(t, u)
    ensures InStep(s, t, u) && InStep(s, u, t)
  {
  }

  /** A step passes a barrier that all have reached, or is one step of its thread within a phase. */
  lemma Moves<T>(s: State<T>, a: Step)
    requires Enabled(s, a)
    ensures After(s, a).Blocks() == s.Blocks() && a.t in After(s, a).threads
    ensures var x, y := s.threads[a.t], After(s, a).threads[a.t];
      && After(s, a).threads == s.threads[a.t := y]
      && if a.Pass? then y.phase == x.phase + 1 && y.step == 0 && AllArrived(s, a.t)
         else y.phase == x.phase && y.step == x.step + 1 && x.step < s.Limit(x.phase)
  {
    hide AllArrived, PadLhs, PadRhs, CeilTile, Compatible;
  }

  lemma ThreadRange<T>(s: State<T>, t: Tid)
    requires Inv(s) && t in s.threads
    ensures s.threads[t].phase <= 2 * s.Blocks() && s.threads[t].step <= s.Limit(s.threads[t].phase)
  {
    assert ThreadOk(s, t);
  }

  lemma OutStays<T>(s: State<T>, a: Step)
    requires Inv(s) && Enabled(s, a)
    ensures OutOk(After(s, a))
  {
    hide PaddedDot, PadLhs, PadRhs, Compatible, InStep, AllArrived;
    HomeIsUnique(a.t);
    assert ThreadOk(s, a.t);
  }

  lemma StepKeeps<T>(s: State<T>, a: Step)
    requires Inv(s) && Enabled(s, a)
    ensures Inv(After(s, a))
  {
    hide ThreadOk, InStep, OutOk, AllArrived, Compatible;
    var s' := After(s, a);
    OutStays(s, a);
    forall t | t in s'.threads ensures ThreadOk(s', t) {
      if t == a.t { OwnStep(s, a); } else { OthersKept(s, a, t); }
    }
    forall t, u | t in s'.threads && u in s'.threads && SameBlock(t, u) ensures InStep(s', t, u) {
      StaysInStep(s, a, t, u);
    }
  }

  /** Some thread of the set is at a phase no other one is before. */
  lemma {:induction false} EarliestThread<T>(s: State<T>, us: set<Tid>) returns (u: Tid)
    requires us != {} && forall v :: v in us ==> v in s.threads
    ensures u in us && forall v :: v in us ==> s.threads[u].phase <= s.threads[v].phase
    decreases |us|
  {
    u :| u in us;
    if us - {u} != {} {
      var v := EarliestThread(s, us - {u});
      if s.threads[v].phase < s.threads[u].phase { u := v; }
    }
  }

  /** The barriers never block: until the launch is finished, some thread can take a step. */
  lemma NoDeadlock<T>(s: State<T>)
    requires Inv(s) && !Finished(s)
    ensures exists a :: Enabled(s, a)
  {
    var t :| t in s.threads && !(s.threads[t].phase == 2 * s.Blocks() && s.threads[t].step == 1);
    var us := set v | v in s.threads && SameBlock(t, v);
    assert t in us;
    var u := EarliestThread(s, us);
    var phase := s.threads[u].phase;
    if v :| v in s.threads && SameBlock(t, v) && s.threads[v].phase == phase && s.threads[v].step < s.Limit(phase) {
      assert ThreadOk(s, v);
      if phase == 2 * s.Blocks() {
        assert Enabled(s, Write(v));
      } else if phase % 2 == 1 {
        ReadsCurrentBlock(s, v);
        assert Enabled(s, Accumulate(v));
      } else if s.threads[v].step == 0 {
        assert Enabled(s, LoadLhs(v));
      } else {
        assert Enabled(s, LoadRhs(v));
      }
    } else {
      assert ThreadOk(s, t) && ThreadOk(s, u);
      forall v | v in s.threads && SameBlock(u, v)
        ensures s.threads[v].phase > phase || (s.threads[v].phase == phase && s.threads[v].step == s.Limit(phase))
      {
        assert ThreadOk(s, v);
      }
      assert Enabled(s, Pass(u));
    }
  }

  // ---------- runs ----------

  ghost predicate LegalRun<T>(s: State<T>, steps: seq<Step>)
    decreases |steps|
  {
    steps != [] ==> Enabled(s, steps[0]) && LegalRun(After(s, steps[0]), steps[1..])
  }

  ghost function Run<T>(s: State<T>, steps: seq<Step>): State<T>
    requires LegalRun(s, steps)
    decreases |steps|
  {
    if steps == [] then s else Run(After(s, steps[0]), steps[1..])
  }

  /** A launch: every thread of the grid at its first instruction, shared memory and output untouched. */
  ghost predicate Launched<T>(s: State<T>) {
    s.Shaped() && s.out == map[] && forall t :: t in s.threads ==> s.threads[t] == Thread(0, 0, s.ar.zero)
  }

  ghost predicate Finished<T>(s: State<T>) {
    forall t :: t in s.threads ==> s.threads[t].phase == 2 * s.Blocks() && s.threads[t].step == 1
  }

  lemma {:induction false} RunKeeps<T>(s: State<T>, steps: seq<Step>)
    requires Inv(s) && LegalRun(s, steps)
    ensures Inv(Run(s, steps))
    ensures var e := Run(s, steps); e.lhs == s.lhs && e.rhs == s.rhs && e.ar == s.ar
    decreases |steps|
  {
    if steps != [] {
      hide Inv, Enabled, After;
      StepKeeps(s, steps[0]);
      SameLaunch(s, steps[0]);
      RunKeeps(After(s, steps[0]), steps[1..]);
    }
  }

  lemma SameLaunch<T>(s: State<T>, a: Step)
    requires Enabled(s, a)
    ensures var e := After(s, a); e.lhs == s.lhs && e.rhs == s.rhs && e.ar == s.ar
  {
  }

  lemma LaunchOk<T>(s: State<T>)
    requires Launched(s)
    ensures Inv(s)
  {
  }

  /** A finished thread of the grid has written the padded dot product of its own element. */
  lemma FinishedElement<T>(s: State<T>, r: nat, c: nat)
    requires Inv(s) && Finished(s)
    ensures (r, c) in s.out <==> r < s.lhs.rows && c < s.rhs.cols
    ensures (r, c) in s.out ==> s.out[(r, c)] == PaddedDot(s.ar, s.lhs, s.rhs, r, c, s.Blocks() * TILE)
  {
    hide InStep, Compatible, PaddedDot, CeilTile, PadLhs, PadRhs, Tid.Row, Tid.Col;
    if r < s.lhs.rows && c < s.rhs.cols {
      HomeInGrid(s, r, c);
      FinishedThread(s, Home(r, c));
    }
  }

  lemma FinishedThread<T>(s: State<T>, t: Tid)
    requires Inv(s) && Finished(s) && t in s.threads && t.Row() < s.lhs.rows && t.Col() < s.rhs.cols
    ensures (t.Row(), t.Col()) in s.out
    ensures s.out[(t.Row(), t.Col())] == PaddedDot(s.ar, s.lhs, s.rhs, t.Row(), t.Col(), s.Blocks() * TILE)
  {
    hide InStep, Compatible, PaddedDot, CeilTile, PadLhs, PadRhs, Tid.Row, Tid.Col, OutOk;
    assert ThreadOk(s, t);
  }

  // ---------- every launch ends ----------

  /** The steps a thread still has to take. */
  function Todo<T>(x: Thread<T>, blocks: nat): int {
    if x.phase >= 2 * blocks then 1 - x.step
    else (if x.phase % 2 == 0 then 2 + 1 + TILE + 1 else TILE + 1) - x.step + BlockSteps(blocks - x.phase / 2 - 1)
  }

  /**
    The steps of a number of inner blocks and of the final write: two loads, a product per tile column, two barriers.
   */
  function BlockSteps(blocks: nat): nat {
    (TILE + 4) * blocks + 1
  }

  ghost function TotalTodo<T>(threads: map<Tid, Thread<T>>, ts: set<Tid>, blocks: nat): int
    requires ts <= threads.Keys
  {
    if ts == {} then 0
    else
      var t :| t in ts;
      Todo(threads[t], blocks) + TotalTodo(threads, ts - {t}, blocks)
  }

  lemma {:induction false} TotalSplit<T>(threads: map<Tid, Thread<T>>, ts: set<Tid>, t: Tid, blocks: nat)
    requires t in ts && ts <= threads.Keys
    ensures TotalTodo(threads, ts, blocks) == Todo(threads[t], blocks) + TotalTodo(threads, ts - {t}, blocks)
    decreases |ts|
  {
    var u :| u in ts && TotalTodo(threads, ts, blocks)
      == Todo(threads[u], blocks) + TotalTodo(threads, ts - {u}, blocks);
    if u != t {
      TotalSplit(threads, ts - {u}, t, blocks);
      TotalSplit(threads, ts - {t}, u, blocks);
      assert ts - {u} - {t} == ts - {t} - {u};
    }
  }

  lemma {:induction false} TotalSame<T>(threads: map<Tid, Thread<T>>, threads': map<Tid, Thread<T>>, ts: set<Tid>,
                                        blocks: nat)
    requires ts <= threads.Keys && ts <= threads'.Keys && forall t :: t in ts ==> threads'[t] == threads[t]
    ensures TotalTodo(threads', ts, blocks) == TotalTodo(threads, ts, blocks)
    decreases |ts|
  {
    if ts != {} {
      var t :| t in ts;
      TotalSplit(threads, ts, t, blocks);
      TotalSplit(threads', ts, t, blocks);
      TotalSame(threads, threads', ts - {t}, blocks);
    }
  }

  /** When every thread has the same number of steps left, the total is that many times their number. */
  lemma {:induction false} TotalEven<T>(threads: map<Tid, Thread<T>>, ts: set<Tid>, blocks: nat, n: int)
    requires ts <= threads.Keys && forall t :: t in ts ==> Todo(threads[t], blocks) == n
    ensures TotalTodo(threads, ts, blocks) == |ts| * n
    decreases |ts|
  {
    hide Todo;
    if ts != {} {
      var t :| t in ts;
      TotalSplit(threads, ts, t, blocks);
      TotalEven(threads, ts - {t}, blocks, n);
      OneMore(|ts - {t}|, n);
      assert |ts| == |ts - {t}| + 1;
    }
  }

  lemma OneMore(k: nat, n: int)
    ensures (k + 1) * n == k * n + n
  {
  }

  ghost function StepsLeft<T>(s: State<T>): int {
    TotalTodo(s.threads, s.threads.Keys, s.Blocks())
  }

  /** Every step leaves exactly one step less to take. */
  lemma StepCounts<T>(s: State<T>, a: Step)
    requires Inv(s) && Enabled(s, a)
    ensures StepsLeft(After(s, a)) == StepsLeft(s) - 1
  {
    hide PadLhs, PadRhs, PaddedDot, Compatible, InStep, AllArrived, OutOk, CeilTile, BlockSteps;
    var s' := After(s, a);
    var others := s.threads.Keys - {a.t};
    assert s'.threads.Keys == s.threads.Keys;
    ThreadRange(s, a.t);
    ThreadCounts(s, a);
    TotalSplit(s.threads, s.threads.Keys, a.t, s.Blocks());
    TotalSplit(s'.threads, s.threads.Keys, a.t, s.Blocks());
    TotalSame(s.threads, s'.threads, others, s.Blocks());
  }

  lemma ThreadCounts<T>(s: State<T>, a: Step)
    requires Enabled(s, a) && s.threads[a.t].step <= s.Limit(s.threads[a.t].phase)
    ensures Todo(After(s, a).threads[a.t], s.Blocks()) == Todo(s.threads[a.t], s.Blocks()) - 1
  {
    hide PadLhs, PadRhs, Compatible, AllArrived, CeilTile;
  }

  lemma {:induction false} NoneLeft<T>(threads: map<Tid, Thread<T>>, ts: set<Tid>, blocks: nat)
    requires ts <= threads.Keys && forall t :: t in ts ==> Todo(threads[t], blocks) >= 0
    ensures TotalTodo(threads, ts, blocks) >= 0
    ensures TotalTodo(threads, ts, blocks) == 0 <==> forall t :: t in ts ==> Todo(threads[t], blocks) == 0
    decreases |ts|
  {
    if ts != {} {
      var t :| t in ts;
      TotalSplit(threads, ts, t, blocks);
      NoneLeft(threads, ts - {t}, blocks);
      assert forall u :: u in ts <==> u == t || u in ts - {t};
    }
  }

  /** A launch is finished exactly when no steps are left. */
  lemma FinishedIff<T>(s: State<T>)
    requires Inv(s)
    ensures StepsLeft(s) >= 0 && (StepsLeft(s) == 0 <==> Finished(s))
  {
    hide Inv, CeilTile;
    forall t | t in s.threads
      ensures Todo(s.threads[t], s.Blocks()) >= 0
      ensures Todo(s.threads[t], s.Blocks()) == 0 <==> s.threads[t].phase == 2 * s.Blocks() && s.threads[t].step == 1
    {
      ThreadRange(s, t);
    }
    NoneLeft(s.threads, s.threads.Keys, s.Blocks());
  }

  lemma {:induction false} RunCounts<T>(s: State<T>, steps: seq<Step>)
    requires Inv(s) && LegalRun(s, steps)
    ensures StepsLeft(Run(s, steps)) == StepsLeft(s) - |steps|
    decreases |steps|
  {
    if steps != [] {
      hide Inv, Enabled, After, TotalTodo;
      StepKeeps(s, steps[0]);
      StepCounts(s, steps[0]);
      RunCounts(After(s, steps[0]), steps[1..]);
    }
  }

  /**
    However the threads are interleaved, a launch takes the same number of steps in all: no run is
    longer, a run of that length has finished, and any shorter one can be continued.
   */
  lemma LaunchEnds<T>(s: State<T>, steps: seq<Step>)
    requires Launched(s) && LegalRun(s, steps)
    ensures var total := |s.threads| * BlockSteps(s.Blocks());
      && |steps| <= total
      && (|steps| == total <==> Finished(Run(s, steps)))
      && (|steps| < total ==> exists a :: Enabled(Run(s, steps), a))
  {
    LaunchOk(s);
    hide Inv, CeilTile, BlockSteps, Finished, Enabled;
    RunKeeps(s, steps);
    RunCounts(s, steps);
    FinishedIff(Run(s, steps));
    forall t | t in s.threads
      ensures Todo(s.threads[t], s.Blocks()) == BlockSteps(s.Blocks())
    {
      FirstTodo(s.threads[t], s.Blocks());
    }
    TotalEven(s.threads, s.threads.Keys, s.Blocks(), BlockSteps(s.Blocks()));
    assert |s.threads| == |s.threads.Keys|;
    if !Finished(Run(s, steps)) { NoDeadlock(Run(s, steps)); }
  }

  lemma FirstTodo<T>(x: Thread<T>, blocks: nat)
    requires x.phase == 0 && x.step == 0
    ensures Todo(x, blocks) == BlockSteps(blocks)
  {
  }

  /**
    Whatever the interleaving, a finished launch has written every element of the product exactly
    from its own thread, with the dot product followed by one zero product per padded position.
   */
  lemma LaunchComputesProduct<T>(s: State<T>, steps: seq<Step>, r: nat, c: nat)
    requires Launched(s) && LegalRun(s, steps) && Finished(Run(s, steps))
    ensures (r, c) in Run(s, steps).out <==> r < s.lhs.rows && c < s.rhs.cols
    ensures r < s.lhs.rows && c < s.rhs.cols ==>
      Run(s, steps).out[(r, c)]
        == AddZeros(s.ar, Dot(s.ar, s.lhs, s.rhs, r, c, s.Inner()), s.Blocks() * TILE - s.Inner())
  {
    LaunchOk(s);
    hide Inv, AddZeros, PaddedDot, Finished;
    RunKeeps(s, steps);
    FinishedElement(Run(s, steps), r, c);
    if r < s.lhs.rows && c < s.rhs.cols {
      PaddedIsDotPlusZeros(s.ar, s.lhs, s.rhs, r, c, s.Blocks() * TILE);
    }
  }

  /** Where adding a product of zeros changes nothing, the kernel agrees with the CPU product. */
  lemma LaunchAgreesWithCpu<T(!new)>(s: State<T>, steps: seq<Step>, r: nat, c: nat)
    requires Launched(s) && LegalRun(s, steps) && Finished(Run(s, steps)) && r < s.lhs.rows && c < s.rhs.cols
    requires forall y :: s.ar.add(y, s.ar.mul(s.ar.zero, s.ar.zero)) == y
    ensures (r, c) in Run(s, steps).out && Run(s, steps).out[(r, c)] == Dot(s.ar, s.lhs, s.rhs, r, c, s.Inner())
  {
    LaunchComputesProduct(s, steps, r, c);
    ZerosVanish(s.ar, Dot(s.ar, s.lhs, s.rhs, r, c, s.Inner()), s.Blocks() * TILE - s.Inner());
  }
}
