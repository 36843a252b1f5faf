/**
 The expert-parallel exchange of triton_kernels/distributed.py. Every rank scatters its token rows
 to the ranks that own the tokens' experts; after a barrier every rank scatters the rows it holds
 back. Program instances run in any interleaving of their element copies.
 */
module ExpertExchange {
  import opened Sequences
  import opened MixedRadix
  import Assignment = ExpertAssignment

  /** One element of a peer buffer. */
  datatype Cell = Cell(rank: int, row: int, col: int)

  /** Load one element and store it elsewhere. */
  datatype Copy = Copy(from: Cell, to: Cell)

  // ---------------------------------------------------------------------------
  // A phase: instances issue their copies in program order, interleaved in any way
  // ---------------------------------------------------------------------------

  /** `done` counts each instance's issued copies; `log` lists the stored cells; `fault` marks a load
      of a cell that was never written. */
  datatype State<V> = State(done: seq<nat>, mem: map<Cell, V>, log: seq<Cell>, fault: bool)

  function Start<V>(programs: seq<seq<Copy>>): State<V> {
    State(seq(|programs|, i => 0), map[], [], false)
  }

  predicate Enabled<V>(programs: seq<seq<Copy>>, st: State<V>, i: nat) {
    |st.done| == |programs| && i < |programs| && st.done[i] < |programs[i]|
  }

  function Step<V>(programs: seq<seq<Copy>>, source: map<Cell, V>, st: State<V>, i: nat): State<V>
    requires Enabled(programs, st, i)
  {
    var op := programs[i][st.done[i]];
    State(st.done[i := st.done[i] + 1],
          if op.from in source then st.mem[op.to := source[op.from]] else st.mem,
          st.log + [op.to],
          st.fault || op.from !in source)
  }

  /** Where a schedule leads: at each tick the named instance issues its next copy, if it has one. */
  function Run<V>(programs: seq<seq<Copy>>, source: map<Cell, V>, schedule: seq<nat>): Option<State<V>> {
    if schedule == [] then Some(Start(programs))
    else
      var last := |schedule| - 1;
      match Run(programs, source, schedule[..last])
      case None => None
      case Some(st) =>
        if Enabled(programs, st, schedule[last]) then Some(Step(programs, source, st, schedule[last])) else None
  }

  ghost predicate Complete<V>(programs: seq<seq<Copy>>, st: State<V>) {
    |st.done| == |programs| && forall i | 0 <= i < |programs| :: st.done[i] == |programs[i]|
  }

  /** No two copies of the phase store to the same cell. */
  ghost predicate DistinctTargets(programs: seq<seq<Copy>>) {
    forall i, j, k, l | 0 <= i < |programs| && 0 <= j < |programs[i]|
                        && 0 <= k < |programs| && 0 <= l < |programs[k]| ::
      programs[i][j].to == programs[k][l].to ==> i == k && j == l
  }

  /** Copy `j` of instance `i` has been issued. */
  ghost predicate Issued<V>(programs: seq<seq<Copy>>, st: State<V>, i: int, j: int) {
    && |st.done| == |programs| && 0 <= i < |programs|
    && st.done[i] <= |programs[i]| && 0 <= j < st.done[i]
  }

  /** What holds at every moment of a phase, whatever its copies: what was stored to and what was loaded. */
  ghost predicate Tally<V>(programs: seq<seq<Copy>>, source: map<Cell, V>, st: State<V>) {
    && |st.done| == |programs|
    && (forall i | 0 <= i < |programs| :: st.done[i] <= |programs[i]|)
    && (forall c | c in st.log :: exists i, j :: Issued(programs, st, i, j) && programs[i][j].to == c)
    && (forall i, j | Issued(programs, st, i, j) :: programs[i][j].to in st.log)
    && (st.fault <==> exists i, j :: Issued(programs, st, i, j) && programs[i][j].from !in source)
  }

  /** If no two copies share a target, each cell is stored to once and holds what it was given. */
  ghost predicate PhaseInvariant<V>(programs: seq<seq<Copy>>, source: map<Cell, V>, st: State<V>) {
    && Tally(programs, source, st)
    && Distinct(st.log)
    && (forall c | c in st.mem ::
          exists i, j :: Issued(programs, st, i, j) && programs[i][j].to == c && programs[i][j].from in source)
    && (forall i, j | Issued(programs, st, i, j) && programs[i][j].from in source ::
          programs[i][j].to in st.mem && st.mem[programs[i][j].to] == source[programs[i][j].from])
  }

  lemma IssuedAfterStep<V>(programs: seq<seq<Copy>>, source: map<Cell, V>, st: State<V>, n: nat, i: int, j: int)
    requires Enabled(programs, st, n)
    requires forall i | 0 <= i < |programs| :: st.done[i] <= |programs[i]|
    ensures Issued(programs, Step(programs, source, st, n), i, j) <==>
              Issued(programs, st, i, j) || (i == n && j == st.done[n])
  {
  }

  lemma StepKeepsTally<V>(programs: seq<seq<Copy>>, source: map<Cell, V>, st: State<V>, n: nat)
    requires Tally(programs, source, st) && Enabled(programs, st, n)
    ensures Tally(programs, source, Step(programs, source, st, n))
  {
    var next := Step(programs, source, st, n);
    var m := st.done[n];
    forall i, j ensures Issued(programs, next, i, j) <==> Issued(programs, st, i, j) || (i == n && j == m) {
      IssuedAfterStep(programs, source, st, n, i, j);
    }
    assert Issued(programs, next, n, m);
    forall c | c in next.log ensures exists i, j :: Issued(programs, next, i, j) && programs[i][j].to == c {
      if c in st.log {
        var i, j :| Issued(programs, st, i, j) && programs[i][j].to == c;
        assert Issued(programs, next, i, j);
      }
    }
    if st.fault {
      var i, j :| Issued(programs, st, i, j) && programs[i][j].from !in source;
      assert Issued(programs, next, i, j);
    }
  }

  lemma StepKeepsInvariant<V>(programs: seq<seq<Copy>>, source: map<Cell, V>, st: State<V>, n: nat)
    requires DistinctTargets(programs) && PhaseInvariant(programs, source, st) && Enabled(programs, st, n)
    ensures PhaseInvariant(programs, source, Step(programs, source, st, n))
  {
    StepKeepsTally(programs, source, st, n);
    var next := Step(programs, source, st, n);
    var m := st.done[n];
    var op := programs[n][m];
    forall i, j ensures Issued(programs, next, i, j) <==> Issued(programs, st, i, j) || (i == n && j == m) {
      IssuedAfterStep(programs, source, st, n, i, j);
    }
    assert Issued(programs, next, n, m);
    assert op.to !in st.log;
    forall c | c in next.mem
      ensures exists i, j :: Issued(programs, next, i, j) && programs[i][j].to == c && programs[i][j].from in source
    {
      if c in st.mem {
        var i, j :| Issued(programs, st, i, j) && programs[i][j].to == c && programs[i][j].from in source;
        assert Issued(programs, next, i, j);
      }
    }
    forall i, j | Issued(programs, next, i, j) && programs[i][j].from in source
      ensures programs[i][j].to in next.mem && next.mem[programs[i][j].to] == source[programs[i][j].from]
    {
      if !(i == n && j == m) {
        assert Issued(programs, st, i, j);
        assert programs[i][j].to != op.to;
      }
    }
  }

  /** Every schedule of every phase keeps its tally. */
  lemma {:induction false} EveryRunKeepsTally<V>(programs: seq<seq<Copy>>, source: map<Cell, V>, schedule: seq<nat>)
    requires Run(programs, source, schedule).Some?
    ensures Tally(programs, source, Run(programs, source, schedule).value)
    decreases |schedule|
  {
    if schedule != [] {
      var last := |schedule| - 1;
      EveryRunKeepsTally(programs, source, schedule[..last]);
      StepKeepsTally(programs, source, Run(programs, source, schedule[..last]).value, schedule[last]);
    }
  }

  /** With distinct targets every schedule keeps the invariant, whatever order it runs the instances in. */
  lemma {:induction false} EveryRunKeepsInvariant<V>(programs: seq<seq<Copy>>, source: map<Cell, V>, schedule: seq<nat>)
    requires DistinctTargets(programs) && Run(programs, source, schedule).Some?
    ensures PhaseInvariant(programs, source, Run(programs, source, schedule).value)
    decreases |schedule|
  {
    if schedule != [] {
      var last := |schedule| - 1;
      EveryRunKeepsInvariant(programs, source, schedule[..last]);
      StepKeepsInvariant(programs, source, Run(programs, source, schedule[..last]).value, schedule[last]);
    }
  }

  /** The copies the first `n` instances have not issued yet. */
  function Outstanding(programs: seq<seq<Copy>>, done: seq<nat>, n: nat): nat
    requires n <= |programs| == |done|
    requires forall i | 0 <= i < |programs| :: done[i] <= |programs[i]|
  {
    if n == 0 then 0 else Outstanding(programs, done, n - 1) + |programs[n - 1]| - done[n - 1]
  }

  lemma {:induction false} OneFewerOutstanding(programs: seq<seq<Copy>>, done: seq<nat>, i: nat, n: nat)
    requires n <= |programs| == |done| && i < |programs| && done[i] < |programs[i]|
    requires forall k | 0 <= k < |programs| :: done[k] <= |programs[k]|
    ensures Outstanding(programs, done[i := done[i] + 1], n) == Outstanding(programs, done, n) - if i < n then 1 else 0
  {
    if n > 0 { OneFewerOutstanding(programs, done, i, n - 1); }
  }

  lemma OneMoreStep<V>(programs: seq<seq<Copy>>, source: map<Cell, V>, schedule: seq<nat>, st: State<V>, i: nat)
    returns (next: State<V>)
    requires Run(programs, source, schedule) == Some(st) && Enabled(programs, st, i)
    requires forall k | 0 <= k < |programs| :: st.done[k] <= |programs[k]|
    ensures Run(programs, source, schedule + [i]) == Some(next) && |next.done| == |programs|
    ensures forall k | 0 <= k < |programs| :: next.done[k] <= |programs[k]|
    ensures Outstanding(programs, next.done, |programs|) < Outstanding(programs, st.done, |programs|)
  {
    var longer := schedule + [i];
    assert longer[..|longer| - 1] == schedule;
    next := Step(programs, source, st, i);
    OneFewerOutstanding(programs, st.done, i, |programs|);
  }

  /** No schedule gets stuck: every run can be continued until all instances have finished. */
  lemma {:induction false} EveryRunCanFinish<V>(programs: seq<seq<Copy>>, source: map<Cell, V>, schedule: seq<nat>,
                                                st: State<V>)
    returns (longer: seq<nat>)
    requires Run(programs, source, schedule) == Some(st) && |st.done| == |programs|
    requires forall i | 0 <= i < |programs| :: st.done[i] <= |programs[i]|
    ensures schedule <= longer && Run(programs, source, longer).Some?
    ensures Complete(programs, Run(programs, source, longer).value)
    decreases Outstanding(programs, st.done, |programs|)
  {
    if Complete(programs, st) {
      longer := schedule;
    } else {
      var i: nat :| i < |programs| && st.done[i] != |programs[i]|;
      var next := OneMoreStep(programs, source, schedule, st, i);
      longer := EveryRunCanFinish(programs, source, schedule + [i], next);
    }
  }

  // ---------------------------------------------------------------------------
  // Ownership read from the mask
  // ---------------------------------------------------------------------------

  /** Rank `r`'s mask row has a word for expert `e`. */
  predicate InMask(mask: seq<seq<bv32>>, r: int, e: int) {
    0 <= r < |mask| && 0 <= e && e / 32 < |mask[r]|
  }

  predicate HasExpert(mask: seq<seq<bv32>>, r: int, e: int)
    requires InMask(mask, r, e)
  {
    Assignment.Bit(mask[r][e / 32], e % 32)
  }

  ghost predicate Owner(mask: seq<seq<bv32>>, r: int, e: int) {
    InMask(mask, r, e) && HasExpert(mask, r, e)
  }

  ghost predicate OneOwner(mask: seq<seq<bv32>>, e: int) {
    && (forall r | 0 <= r < |mask| :: InMask(mask, r, e))
    && (exists r :: Owner(mask, r, e))
    && forall r, q | Owner(mask, r, e) && Owner(mask, q, e) :: r == q
  }

  /** The kernel's way to the owner: add up the ranks whose bit is set. */
  function OwnerSum(mask: seq<seq<bv32>>, e: int, n: nat): nat
    requires n <= |mask| && forall r | 0 <= r < n :: InMask(mask, r, e)
  {
    if n == 0 then 0
    else OwnerSum(mask, e, n - 1) + if HasExpert(mask, n - 1, e) then n - 1 else 0
  }

  /** With one owner the sum is the owner. */
  lemma {:induction false} OwnerSumIsOwner(mask: seq<seq<bv32>>, e: int, n: nat, owner: nat)
    requires OneOwner(mask, e) && Owner(mask, owner, e) && n <= |mask|
    ensures OwnerSum(mask, e, n) == if owner < n then owner else 0
  {
    if n > 0 {
      OwnerSumIsOwner(mask, e, n - 1, owner);
      assert HasExpert(mask, n - 1, e) <==> Owner(mask, n - 1, e);
    }
  }

  function OwnerRank(mask: seq<seq<bv32>>, e: int): nat
    requires OneOwner(mask, e)
  {
    OwnerSum(mask, e, |mask|)
  }

  lemma OwnerRankOwns(mask: seq<seq<bv32>>, e: int)
    requires OneOwner(mask, e)
    ensures Owner(mask, OwnerRank(mask, e), e) && OwnerRank(mask, e) < |mask|
  {
    var owner: nat :| Owner(mask, owner, e);
    OwnerSumIsOwner(mask, e, |mask|, owner);
  }

  // ---------------------------------------------------------------------------
  // The column loop
  // ---------------------------------------------------------------------------

  /** One element store of a kernel: which of its destination rows, and which column. */
  datatype Store = Store(dst: int, col: int)

  /** The unmasked lanes of one block, from lane `off` on. */
  function Lanes(block: Positive, start: nat, off: nat, n: nat): seq<int>
    decreases block - off
  {
    if off >= block then []
    else (if start + off < n then [start + off] else []) + Lanes(block, start, off + 1, n)
  }

  /** One destination row of a block store. */
  function RowPairs(e: nat, lanes: seq<int>): (r: seq<Store>)
    ensures |r| == |lanes| && forall i | 0 <= i < |r| :: r[i] == Store(e, lanes[i])
  {
    seq(|lanes|, i requires 0 <= i < |lanes| => Store(e, lanes[i]))
  }

  /** One block store: every destination row, every unmasked lane. */
  function BlockPairs(nDst: nat, lanes: seq<int>): seq<Store> {
    if nDst == 0 then [] else BlockPairs(nDst - 1, lanes) + RowPairs(nDst - 1, lanes)
  }

  function BlockStore(block: Positive, nDst: nat, start: nat, n: nat): seq<Store> {
    BlockPairs(nDst, Lanes(block, start, 0, n))
  }

  /** Everything the column loop stores from column `start` on. */
  function Pairs(block: Positive, nDst: nat, start: nat, n: nat): seq<Store>
    decreases n - start
  {
    if start >= n then [] else BlockStore(block, nDst, start, n) + Pairs(block, nDst, start + block, n)
  }

  lemma DistinctConcat<T>(a: seq<T>, b: seq<T>)
    requires Distinct(a) && Distinct(b) && forall x | x in a :: x !in b
    ensures Distinct(a + b)
  {
    var c := a + b;
    forall i, j | 0 <= i < j < |c| ensures c[i] != c[j] {
      if i < |a| <= j { assert a[i] in a && b[j - |a|] in b; }
    }
  }

  lemma {:induction false} LanesExactly(block: Positive, start: nat, off: nat, n: nat)
    ensures Distinct(Lanes(block, start, off, n))
    ensures forall c :: c in Lanes(block, start, off, n) <==> start + off <= c < start + block && c < n
    decreases block - off
  {
    if off < block {
      LanesExactly(block, start, off + 1, n);
      if start + off < n { DistinctCons(start + off, Lanes(block, start, off + 1, n)); }
    }
  }

  lemma RowPairsExactly(e: nat, lanes: seq<int>)
    requires Distinct(lanes)
    ensures Distinct(RowPairs(e, lanes))
    ensures forall p: Store :: p in RowPairs(e, lanes) <==> p.dst == e && p.col in lanes
  {
    forall p: Store | p.dst == e && p.col in lanes ensures p in RowPairs(e, lanes) {
      var i :| 0 <= i < |lanes| && lanes[i] == p.col;
      assert RowPairs(e, lanes)[i] == p;
    }
  }

  lemma {:induction false} BlockPairsExactly(nDst: nat, lanes: seq<int>)
    requires Distinct(lanes)
    ensures Distinct(BlockPairs(nDst, lanes))
    ensures forall p :: p in BlockPairs(nDst, lanes) <==> 0 <= p.dst < nDst && p.col in lanes
  {
    if nDst > 0 {
      BlockPairsExactly(nDst - 1, lanes);
      RowPairsExactly(nDst - 1, lanes);
      DistinctConcat(BlockPairs(nDst - 1, lanes), RowPairs(nDst - 1, lanes));
    }
  }

  lemma BlockStoreExactly(block: Positive, nDst: nat, start: nat, n: nat)
    ensures Distinct(BlockStore(block, nDst, start, n))
    ensures forall p :: p in BlockStore(block, nDst, start, n) <==>
              0 <= p.dst < nDst && start <= p.col < start + block && p.col < n
  {
    LanesExactly(block, start, 0, n);
    BlockPairsExactly(nDst, Lanes(block, start, 0, n));
  }

  /** The column loop addresses every row and column once, for any number of columns. */
  lemma {:induction false} PairsExactly(block: Positive, nDst: nat, start: nat, n: nat)
    ensures Distinct(Pairs(block, nDst, start, n))
    ensures forall p :: p in Pairs(block, nDst, start, n) <==> 0 <= p.dst < nDst && start <= p.col < n
    decreases n - start
  {
    if start < n {
      BlockStoreExactly(block, nDst, start, n);
      PairsExactly(block, nDst, start + block, n);
      var first, rest := BlockStore(block, nDst, start, n), Pairs(block, nDst, start + block, n);
      forall p | p in first ensures p !in rest {}
      DistinctConcat(first, rest);
      assert Pairs(block, nDst, start, n) == first + rest;
    }
  }

  lemma ColumnStep(stores: seq<Store>, block: Positive, nDst: nat, start: nat, n: nat)
    requires start < n
    ensures stores + Pairs(block, nDst, start, n) ==
              stores + BlockStore(block, nDst, start, n) + Pairs(block, nDst, start + block, n)
  {
    var first, rest := BlockStore(block, nDst, start, n), Pairs(block, nDst, start + block, n);
    assert stores + (first + rest) == stores + first + rest;
  }

  /** The loop over column blocks shared by both kernels: which row and column each store addresses. */
  method ColumnLoop(block: Positive, nDst: nat, n: nat) returns (stores: seq<Store>)
    ensures stores == Pairs(block, nDst, 0, n)
  {
    stores := [];
    var start := 0;
    while start < n
      invariant Pairs(block, nDst, 0, n) == stores + Pairs(block, nDst, start, n)
    {
      ColumnStep(stores, block, nDst, start, n);
      stores := stores + BlockStore(block, nDst, start, n);
      start := start + block;
    }
  }

  // ---------------------------------------------------------------------------
  // The two kernels
  // ---------------------------------------------------------------------------

  /**
   One exchange: `nRanks` ranks with `nLocal` tokens each, `nGlobal` tokens with `nAct` experts each
   and `nCols` columns, copied `block` columns at a time. `experts`, `gate` and `topk` are indexed by
   slot, that is token * nAct + choice.
   */
  datatype Setup = Setup(nRanks: nat, nLocal: nat, nGlobal: nat, nAct: nat, nCols: nat, block: Positive,
                         mask: seq<seq<bv32>>, experts: seq<int>, gate: seq<int>, topk: seq<int>)
  {
    function Slots(): nat { nGlobal * nAct }

    /** Slots per rank as the way back computes them from the number of rows. */
    function SlotsPerRank(): nat { if nRanks == 0 then 0 else Slots() / nRanks }
  }

  ghost predicate Valid(s: Setup) {
    && |s.mask| == s.nRanks
    && |s.experts| == |s.gate| == |s.topk| == s.Slots()
    && (forall i | 0 <= i < s.Slots() :: OneOwner(s.mask, s.experts[i]))
    && (forall i | 0 <= i < s.Slots() :: 0 <= s.gate[i] < s.Slots() && s.topk[s.gate[i]] == i)
    && (forall i | 0 <= i < s.Slots() :: 0 <= s.topk[i] < s.Slots() && s.gate[s.topk[i]] == i)
    && s.nRanks * s.nLocal <= s.nGlobal
  }

  function Slot(s: Setup, rank: nat, pid: nat, e: nat): nat {
    (pid + s.nLocal * rank) * s.nAct + e
  }

  lemma SlotValid(s: Setup, rank: nat, pid: nat, e: nat)
    requires Valid(s) && rank < s.nRanks && pid < s.nLocal && e < s.nAct
    ensures Slot(s, rank, pid, e) < s.nRanks * s.nLocal * s.nAct <= s.Slots()
  {
    InBlock(rank, s.nRanks, s.nLocal, pid);
    InBlock(pid + s.nLocal * rank, s.nRanks * s.nLocal, s.nAct, e);
    MulMonotone(s.nRanks * s.nLocal, s.nGlobal, s.nAct);
  }

  /** Column `p.col` of the token goes to the row of its choice `p.dst` on the owner of that expert. */
  function DispatchCopy(s: Setup, rank: nat, pid: nat, p: Store): Copy
    requires Valid(s) && rank < s.nRanks && pid < s.nLocal && 0 <= p.dst < s.nAct
  {
    SlotValid(s, rank, pid, p.dst);
    var slot := Slot(s, rank, pid, p.dst);
    Copy(Cell(rank, pid, p.col), Cell(OwnerRank(s.mask, s.experts[slot]), s.gate[slot], p.col))
  }

  function DispatchProgram(s: Setup, rank: nat, pid: nat): seq<Copy>
    requires Valid(s) && rank < s.nRanks && pid < s.nLocal
  {
    PairsExactly(s.block, s.nAct, 0, s.nCols);
    DispatchOps(s, rank, pid, Pairs(s.block, s.nAct, 0, s.nCols))
  }

  function DispatchOps(s: Setup, rank: nat, pid: nat, pairs: seq<Store>): (r: seq<Copy>)
    requires Valid(s) && rank < s.nRanks && pid < s.nLocal && forall p | p in pairs :: 0 <= p.dst < s.nAct
    ensures |r| == |pairs| && forall i | 0 <= i < |r| :: r[i] == DispatchCopy(s, rank, pid, pairs[i])
  {
    seq(|pairs|, i requires 0 <= i < |pairs| => DispatchCopy(s, rank, pid, pairs[i]))
  }

  /** The dispatch kernel's instance `pid` on `rank`, as the list of copies it issues. */
  method DispatchInstance(s: Setup, rank: nat, pid: nat) returns (ops: seq<Copy>)
    requires Valid(s) && rank < s.nRanks && pid < s.nLocal
    ensures ops == DispatchProgram(s, rank, pid)
  {
    PairsExactly(s.block, s.nAct, 0, s.nCols);
    var pairs := ColumnLoop(s.block, s.nAct, s.nCols);
    ops := DispatchOps(s, rank, pid, pairs);
  }

  /** The base that stands for no rank's buffer: the null pointer. */
  const NOWHERE := -1

  /** The rank number computed for an output slot; none when the slots per rank came out as zero. */
  function HomeRank(s: Setup, slot: nat): int {
    if s.SlotsPerRank() == 0 then NOWHERE else slot / s.SlotsPerRank()
  }

  ghost predicate IsRank(s: Setup, rank: int) { 0 <= rank < s.nRanks }

  /** The buffer a slot goes back to. A number that is no rank selects no peer, and leaves the base null. */
  function HomeBase(s: Setup, slot: nat): int {
    if 0 <= HomeRank(s, slot) < s.nRanks then HomeRank(s, slot) else NOWHERE
  }

  /** Column `c` of row `pid` goes back to the home rank of its slot. */
  function CombineCopy(s: Setup, rank: nat, pid: nat, c: int): Copy
    requires Valid(s) && pid < s.Slots()
  {
    var slot := s.topk[pid];
    Copy(Cell(rank, pid, c), Cell(HomeBase(s, slot), slot - HomeRank(s, slot) * s.SlotsPerRank(), c))
  }

  /** Rank `rank` owns the expert that row `pid` was computed by. */
  predicate Responsible(s: Setup, rank: nat, pid: nat)
    requires Valid(s) && rank < s.nRanks && pid < s.Slots()
  {
    HasExpert(s.mask, rank, s.experts[s.topk[pid]])
  }

  function CombineOps(s: Setup, rank: nat, pid: nat, pairs: seq<Store>): (r: seq<Copy>)
    requires Valid(s) && pid < s.Slots()
    ensures |r| == |pairs| && forall i | 0 <= i < |r| :: r[i] == CombineCopy(s, rank, pid, pairs[i].col)
  {
    seq(|pairs|, i requires 0 <= i < |pairs| => CombineCopy(s, rank, pid, pairs[i].col))
  }

  function CombineProgram(s: Setup, rank: nat, pid: nat): seq<Copy>
    requires Valid(s) && rank < s.nRanks && pid < s.Slots()
  {
    if Responsible(s, rank, pid) then CombineOps(s, rank, pid, Pairs(s.block, 1, 0, s.nCols)) else []
  }

  /** The combine kernel's instance `pid` on `rank`: it returns at once unless the rank is responsible. */
  method CombineInstance(s: Setup, rank: nat, pid: nat) returns (ops: seq<Copy>)
    requires Valid(s) && rank < s.nRanks && pid < s.Slots()
    ensures ops == CombineProgram(s, rank, pid)
  {
    if !HasExpert(s.mask, rank, s.experts[s.topk[pid]]) { return []; }
    var pairs := ColumnLoop(s.block, 1, s.nCols);
    ops := CombineOps(s, rank, pid, pairs);
  }

  // ---------------------------------------------------------------------------
  // All instances of a launch
  // ---------------------------------------------------------------------------

  function DispatchPhase(s: Setup): (r: seq<seq<Copy>>)
    requires Valid(s)
    ensures |r| == s.nRanks * s.nLocal
  {
    seq(s.nRanks * s.nLocal, k requires 0 <= k < s.nRanks * s.nLocal =>
      QuotientInRange(k, s.nRanks, s.nLocal);
      DispatchProgram(s, k / s.nLocal, k % s.nLocal))
  }

  function CombinePhase(s: Setup): (r: seq<seq<Copy>>)
    requires Valid(s)
    ensures |r| == s.nRanks * s.Slots()
  {
    seq(s.nRanks * s.Slots(), k requires 0 <= k < s.nRanks * s.Slots() =>
      QuotientInRange(k, s.nRanks, s.Slots());
      CombineProgram(s, k / s.Slots(), k % s.Slots()))
  }

  // ---------------------------------------------------------------------------
  // The dispatch phase
  // ---------------------------------------------------------------------------

  /** The number of slots whose tokens the ranks hold. */
  function Dispatched(s: Setup): nat { s.nRanks * s.nLocal * s.nAct }

  /** Where slot `x` lands, and where its token comes from. */
  function SlotTarget(s: Setup, x: nat, c: int): Cell
    requires Valid(s) && x < s.Slots()
  {
    Cell(OwnerRank(s.mask, s.experts[x]), s.gate[x], c)
  }

  function SlotSource(s: Setup, x: nat, c: int): Cell
    requires s.nLocal > 0 && s.nAct > 0
  {
    Cell(x / s.nAct / s.nLocal, x / s.nAct % s.nLocal, c)
  }

  lemma DispatchedIsSlot(s: Setup, x: nat)
    requires Valid(s) && x < Dispatched(s)
    ensures x < s.Slots() && s.nAct > 0 && s.nLocal > 0 && x / s.nAct < s.nRanks * s.nLocal
  {
    MulMonotone(s.nRanks * s.nLocal, s.nGlobal, s.nAct);
    QuotientInRange(x, s.nRanks * s.nLocal, s.nAct);
    QuotientInRange(x / s.nAct, s.nRanks, s.nLocal);
  }

  /** Copy `j` of dispatch instance `i` moves column `c` of slot `x`. */
  lemma DispatchOpAt(s: Setup, i: nat, j: nat) returns (x: nat, c: int)
    requires Valid(s) && i < s.nRanks * s.nLocal && j < |DispatchPhase(s)[i]|
    ensures x < Dispatched(s) && x < s.Slots() && s.nLocal > 0 && s.nAct > 0 && 0 <= c < s.nCols
    ensures x / s.nAct == i
    ensures j < |Pairs(s.block, s.nAct, 0, s.nCols)| && Pairs(s.block, s.nAct, 0, s.nCols)[j] == Store(x % s.nAct, c)
    ensures DispatchPhase(s)[i][j] == Copy(SlotSource(s, x, c), SlotTarget(s, x, c))
  {
    QuotientInRange(i, s.nRanks, s.nLocal);
    var store := DispatchStoreAt(s, i / s.nLocal, i % s.nLocal, j);
    x, c := i * s.nAct + store.dst, store.col;
    InBlock(i, s.nRanks * s.nLocal, s.nAct, store.dst);
    DispatchedIsSlot(s, x);
    DigitsDecode(i, store.dst, s.nAct);
    assert Slot(s, i / s.nLocal, i % s.nLocal, store.dst) == x;
  }

  lemma DispatchStoreAt(s: Setup, rank: nat, pid: nat, j: nat) returns (store: Store)
    requires Valid(s) && rank < s.nRanks && pid < s.nLocal && j < |DispatchProgram(s, rank, pid)|
    ensures 0 <= store.dst < s.nAct && 0 <= store.col < s.nCols
    ensures j < |Pairs(s.block, s.nAct, 0, s.nCols)| && Pairs(s.block, s.nAct, 0, s.nCols)[j] == store
    ensures DispatchProgram(s, rank, pid)[j] == DispatchCopy(s, rank, pid, store)
  {
    PairsExactly(s.block, s.nAct, 0, s.nCols);
    store := Pairs(s.block, s.nAct, 0, s.nCols)[j];
    assert store in Pairs(s.block, s.nAct, 0, s.nCols);
  }

  lemma DispatchLength(s: Setup, i: nat)
    requires Valid(s) && i < s.nRanks * s.nLocal
    ensures |DispatchPhase(s)[i]| == |Pairs(s.block, s.nAct, 0, s.nCols)|
  {
    QuotientInRange(i, s.nRanks, s.nLocal);
    PairsExactly(s.block, s.nAct, 0, s.nCols);
  }

  lemma StorePlace(block: Positive, nDst: nat, n: nat, dst: int, col: int) returns (j: nat)
    requires 0 <= dst < nDst && 0 <= col < n
    ensures j < |Pairs(block, nDst, 0, n)| && Pairs(block, nDst, 0, n)[j] == Store(dst, col)
  {
    PairsExactly(block, nDst, 0, n);
    j :| j < |Pairs(block, nDst, 0, n)| && Pairs(block, nDst, 0, n)[j] == Store(dst, col);
  }

  /** Two copies to the same place move the same slot and column. */
  lemma DispatchTargetGivesSlot(s: Setup, x: nat, y: nat, c: int, d: int)
    requires Valid(s) && x < s.Slots() && y < s.Slots() && SlotTarget(s, x, c) == SlotTarget(s, y, d)
    ensures x == y && c == d
  {
    assert s.topk[s.gate[x]] == x && s.topk[s.gate[y]] == y;
  }

  lemma SameDispatchOp(s: Setup, i: nat, j: nat, k: nat, l: nat)
    requires Valid(s) && i < s.nRanks * s.nLocal && j < |DispatchPhase(s)[i]|
    requires k < s.nRanks * s.nLocal && l < |DispatchPhase(s)[k]|
    requires DispatchPhase(s)[i][j].to == DispatchPhase(s)[k][l].to
    ensures i == k && j == l
  {
    var x, c := DispatchOpAt(s, i, j);
    var y, d := DispatchOpAt(s, k, l);
    DispatchTargetGivesSlot(s, x, y, c, d);
    PairsExactly(s.block, s.nAct, 0, s.nCols);
  }

  lemma DispatchTargetsDistinct(s: Setup)
    requires Valid(s)
    ensures DistinctTargets(DispatchPhase(s))
  {
    var phase: seq<seq<Copy>> := DispatchPhase(s);
    forall i, j, k, l | 0 <= i < |phase| && 0 <= j < |phase[i]| && 0 <= k < |phase| && 0 <= l < |phase[k]|
                        && phase[i][j].to == phase[k][l].to
      ensures i == k && j == l
    {
      SameDispatchOp(s, i, j, k, l);
    }
  }

  /** Every rank's token rows are there to be read. */
  ghost predicate Loaded<V>(s: Setup, src: map<Cell, V>) {
    forall r, m, c | 0 <= r < s.nRanks && 0 <= m < s.nLocal && 0 <= c < s.nCols :: Cell(r, m, c) in src
  }

  /** The rank and row that hold the token of a dispatched slot. */
  lemma TokenPlace(s: Setup, x: nat) returns (r: nat, m: nat)
    requires Valid(s) && x < Dispatched(s)
    ensures s.nAct > 0 && s.nLocal > 0 && r < s.nRanks && m < s.nLocal
    ensures forall c :: SlotSource(s, x, c) == Cell(r, m, c)
  {
    DispatchedIsSlot(s, x);
    QuotientInRange(x / s.nAct, s.nRanks, s.nLocal);
    r, m := x / s.nAct / s.nLocal, x / s.nAct % s.nLocal;
  }

  lemma SourceLoaded<V>(s: Setup, src: map<Cell, V>, x: nat, c: int)
    requires Valid(s) && Loaded(s, src) && x < Dispatched(s) && 0 <= c < s.nCols
    ensures s.nAct > 0 && s.nLocal > 0 && SlotSource(s, x, c) in src
  {
    var r, m := TokenPlace(s, x);
    assert Cell(r, m, c) in src;
  }

  /** The instance that carries slot `x`. */
  lemma DispatcherOf(s: Setup, x: nat, c: int) returns (i: nat, j: nat)
    requires Valid(s) && x < Dispatched(s) && 0 <= c < s.nCols
    ensures s.nAct > 0 && s.nLocal > 0 && x < s.Slots()
    ensures i < s.nRanks * s.nLocal && j < |DispatchPhase(s)[i]|
    ensures DispatchPhase(s)[i][j] == Copy(SlotSource(s, x, c), SlotTarget(s, x, c))
  {
    DispatchedIsSlot(s, x);
    QuotientBounds(x, s.nAct);
    i := x / s.nAct;
    j := StorePlace(s.block, s.nAct, s.nCols, x % s.nAct, c);
    DispatchLength(s, i);
    var y, d := DispatchOpAt(s, i, j);
    QuotientBounds(y, s.nAct);
  }

  /** After every instance has finished, slot `x` holds its token's row on the owner of its expert. */
  lemma DispatchDelivers<V>(s: Setup, src: map<Cell, V>, st: State<V>, x: nat, c: int)
    requires Valid(s) && Loaded(s, src) && x < Dispatched(s) && 0 <= c < s.nCols
    requires PhaseInvariant(DispatchPhase(s), src, st) && Complete(DispatchPhase(s), st)
    ensures s.nAct > 0 && s.nLocal > 0 && x < s.Slots() && SlotSource(s, x, c) in src
    ensures SlotTarget(s, x, c) in st.mem && st.mem[SlotTarget(s, x, c)] == src[SlotSource(s, x, c)]
  {
    SourceLoaded(s, src, x, c);
    var i, j := DispatcherOf(s, x, c);
    IssuedCopyArrived(DispatchPhase(s), src, st, i, j);
  }

  /** A finished phase has loaded and stored for each of its copies. */
  lemma IssuedCopyTold<V>(programs: seq<seq<Copy>>, source: map<Cell, V>, st: State<V>, i: nat, j: nat)
    requires Tally(programs, source, st) && Complete(programs, st)
    requires i < |programs| && j < |programs[i]|
    ensures programs[i][j].from !in source ==> st.fault
    ensures programs[i][j].to in st.log
  {
    assert Issued(programs, st, i, j);
  }

  /** With distinct targets, it has left what it loaded. */
  lemma IssuedCopyArrived<V>(programs: seq<seq<Copy>>, source: map<Cell, V>, st: State<V>, i: nat, j: nat)
    requires PhaseInvariant(programs, source, st) && Complete(programs, st)
    requires i < |programs| && j < |programs[i]|
    ensures programs[i][j].from in source ==>
              programs[i][j].to in st.mem && st.mem[programs[i][j].to] == source[programs[i][j].from]
    ensures programs[i][j].to in st.log
  {
    assert Issued(programs, st, i, j);
  }

  /** Nothing else is written. */
  lemma DispatchWritesOnly<V>(s: Setup, src: map<Cell, V>, st: State<V>, cell: Cell)
    requires Valid(s) && PhaseInvariant(DispatchPhase(s), src, st) && cell in st.mem
    ensures exists x: nat :: x < Dispatched(s) && x < s.Slots() && cell == SlotTarget(s, x, cell.col)
  {
    var i: nat, j: nat :| Issued(DispatchPhase(s), st, i, j) && DispatchPhase(s)[i][j].to == cell;
    var x, c := DispatchOpAt(s, i, j);
    assert cell == SlotTarget(s, x, cell.col);
  }

  lemma DispatchNeverFaults<V>(s: Setup, src: map<Cell, V>, st: State<V>)
    requires Valid(s) && Loaded(s, src) && PhaseInvariant(DispatchPhase(s), src, st)
    ensures !st.fault
  {
    forall i, j | Issued(DispatchPhase(s), st, i, j) ensures DispatchPhase(s)[i][j].from in src {
      var x, c := DispatchOpAt(s, i, j);
      SourceLoaded(s, src, x, c);
    }
  }

  // ---------------------------------------------------------------------------
  // The combine phase
  // ---------------------------------------------------------------------------

  /** Which row of which rank combine instance `i` is. */
  lemma CombineInstanceAt(s: Setup, i: nat) returns (rank: nat, pid: nat)
    requires Valid(s) && i < s.nRanks * s.Slots()
    ensures s.Slots() > 0 && rank == i / s.Slots() && pid == i % s.Slots()
    ensures rank < s.nRanks && pid < s.Slots() && i == rank * s.Slots() + pid
    ensures CombinePhase(s)[i] == CombineProgram(s, rank, pid)
  {
    QuotientInRange(i, s.nRanks, s.Slots());
    rank, pid := i / s.Slots(), i % s.Slots();
  }

  lemma CombineProgramOp(s: Setup, rank: nat, pid: nat, j: nat)
    requires Valid(s) && rank < s.nRanks && pid < s.Slots() && j < |CombineProgram(s, rank, pid)|
    ensures var stores := Pairs(s.block, 1, 0, s.nCols);
            && |CombineProgram(s, rank, pid)| == |stores|
            && Owner(s.mask, rank, s.experts[s.topk[pid]])
            && stores[j] == Store(0, stores[j].col) && 0 <= stores[j].col < s.nCols
            && CombineProgram(s, rank, pid)[j] == CombineCopy(s, rank, pid, stores[j].col)
  {
    PairsExactly(s.block, 1, 0, s.nCols);
    var stores := Pairs(s.block, 1, 0, s.nCols);
    assert stores[j] in stores;
  }

  /** Copy `j` of combine instance `i`. */
  lemma CombineOpAt(s: Setup, i: nat, j: nat)
    requires Valid(s) && i < s.nRanks * s.Slots() && j < |CombinePhase(s)[i]|
    ensures s.Slots() > 0
    ensures var stores, rank, pid := Pairs(s.block, 1, 0, s.nCols), i / s.Slots(), i % s.Slots();
            && |CombinePhase(s)[i]| == |stores|
            && rank < s.nRanks && i == rank * s.Slots() + pid
            && Owner(s.mask, rank, s.experts[s.topk[pid]])
            && stores[j] == Store(0, stores[j].col) && 0 <= stores[j].col < s.nCols
            && CombinePhase(s)[i][j] == CombineCopy(s, rank, pid, stores[j].col)
  {
    var rank, pid := CombineInstanceAt(s, i);
    CombineProgramOp(s, rank, pid, j);
  }

  /** Where column `c` of slot `x` goes back to. */
  function HomeCell(s: Setup, x: nat, c: int): Cell {
    Cell(HomeBase(s, x), x - HomeRank(s, x) * s.SlotsPerRank(), c)
  }

  /** Blocks of slots per rank, and what is left after the last. */
  lemma SlotBlocks(s: Setup)
    requires s.nRanks > 0
    ensures s.Slots() == s.nRanks * s.SlotsPerRank() + s.Slots() % s.nRanks && s.Slots() % s.nRanks < s.nRanks
  {
    QuotientBounds(s.Slots(), s.nRanks);
  }

  /** Whether a slot's number is a rank. */
  lemma HomeIsRank(s: Setup, x: nat)
    requires s.SlotsPerRank() > 0
    ensures IsRank(s, HomeRank(s, x)) <==> x < s.nRanks * s.SlotsPerRank()
  {
    var per := s.SlotsPerRank();
    QuotientBounds(x, per);
    if x < s.nRanks * per { QuotientInRange(x, s.nRanks, per); } else { QuotientAtLeast(x, s.nRanks, per); }
  }

  lemma QuotientAtLeast(x: nat, n: nat, m: Positive)
    requires n * m <= x
    ensures n <= x / m
  {
    QuotientBounds(x, m);
    var q := x / m;
    assert (q + 1) * m == q * m + m;
    if q < n { MulMonotone(q + 1, n, m); }
  }

  /** All slots go back to ranks if and only if the ranks divide the slots. */
  lemma HomesAreRanksExactly(s: Setup)
    requires s.nRanks > 0
    ensures (forall x: nat | x < s.Slots() :: IsRank(s, HomeRank(s, x))) <==> s.Slots() % s.nRanks == 0
    ensures s.SlotsPerRank() == 0 <==> s.Slots() < s.nRanks
  {
    SlotBlocks(s);
    var per, left := s.SlotsPerRank(), s.Slots() % s.nRanks;
    if per == 0 {
      assert s.Slots() == left;
      if left > 0 { assert !IsRank(s, HomeRank(s, 0)); }
    } else {
      MulMonotone(1, per, s.nRanks);
      forall x: nat ensures IsRank(s, HomeRank(s, x)) <==> x < s.nRanks * per { HomeIsRank(s, x); }
      if left > 0 { assert !IsRank(s, HomeRank(s, s.nRanks * per)); }
    }
  }

  /** No more slots are left over than one rank's share. */
  ghost predicate LeftoverFits(s: Setup) { s.SlotsPerRank() == 0 || s.Slots() % s.nRanks <= s.SlotsPerRank() }

  /** Then a slot past the last rank has the number of ranks as its number. */
  lemma LeftoverHome(s: Setup, x: nat)
    requires LeftoverFits(s) && s.SlotsPerRank() > 0 && s.nRanks * s.SlotsPerRank() <= x < s.Slots()
    ensures HomeRank(s, x) == s.nRanks
  {
    SlotBlocks(s);
    var per := s.SlotsPerRank();
    DigitsDecode(s.nRanks, x - s.nRanks * per, per);
  }

  /** Output positions then determine their slots. */
  lemma HomeInjective(s: Setup, x: nat, y: nat)
    requires LeftoverFits(s) && x < s.Slots() && y < s.Slots() && HomeCell(s, x, 0) == HomeCell(s, y, 0)
    ensures x == y
  {
    var per := s.SlotsPerRank();
    if per > 0 {
      HomeIsRank(s, x);
      HomeIsRank(s, y);
      if HomeBase(s, x) == NOWHERE {
        LeftoverHome(s, x);
        LeftoverHome(s, y);
      }
    }
  }

  lemma SameCombineOp(s: Setup, i: nat, j: nat, k: nat, l: nat)
    requires Valid(s) && LeftoverFits(s)
    requires i < s.nRanks * s.Slots() && j < |CombinePhase(s)[i]| && k < s.nRanks * s.Slots()
             && l < |CombinePhase(s)[k]|
    requires CombinePhase(s)[i][j].to == CombinePhase(s)[k][l].to
    ensures i == k && j == l
  {
    var stores := Pairs(s.block, 1, 0, s.nCols);
    PairsExactly(s.block, 1, 0, s.nCols);
    CombineOpAt(s, i, j);
    CombineOpAt(s, k, l);
    var x, y := s.topk[i % s.Slots()], s.topk[k % s.Slots()];
    HomeInjective(s, x, y);
    assert s.gate[x] == s.gate[y];
    assert i / s.Slots() == k / s.Slots();
    assert stores[j] == stores[l];
  }

  lemma CombineTargetsDistinct(s: Setup)
    requires Valid(s) && LeftoverFits(s)
    ensures DistinctTargets(CombinePhase(s))
  {
    var phase: seq<seq<Copy>> := CombinePhase(s);
    forall i, j, k, l | 0 <= i < |phase| && 0 <= j < |phase[i]| && 0 <= k < |phase| && 0 <= l < |phase[k]|
                        && phase[i][j].to == phase[k][l].to
      ensures i == k && j == l
    {
      SameCombineOp(s, i, j, k, l);
    }
  }

  /** The instance that carries slot `x` back: the owner of its expert runs it on row gate[x]. */
  lemma CarrierOf(s: Setup, x: nat, c: int) returns (i: nat, j: nat)
    requires Valid(s) && x < s.Slots() && 0 <= c < s.nCols
    ensures i < s.nRanks * s.Slots() && j < |CombinePhase(s)[i]|
    ensures CombinePhase(s)[i][j] == Copy(SlotTarget(s, x, c), HomeCell(s, x, c))
  {
    var rank, pid := OwnerRank(s.mask, s.experts[x]), s.gate[x];
    OwnerRankOwns(s.mask, s.experts[x]);
    InBlock(rank, s.nRanks, s.Slots(), pid);
    i := rank * s.Slots() + pid;
    DigitsDecode(rank, pid, s.Slots());
    assert Responsible(s, rank, pid);
    j := StorePlace(s.block, 1, s.nCols, 0, c);
    assert CombinePhase(s)[i] == CombineProgram(s, rank, pid);
    CombineOpAt(s, i, j);
  }

  /** Two slots past the last rank, one share apart, both go to the same row of no buffer. */
  lemma LeftoverCollides(s: Setup)
    requires Valid(s) && s.nRanks > 0 && !LeftoverFits(s) && s.nCols > 0
    ensures !DistinctTargets(CombinePhase(s))
  {
    SlotBlocks(s);
    var per := s.SlotsPerRank();
    var x := s.nRanks * per;
    var y := x + per;
    LeftoverPair(s, per);
    var i, j := CarrierOf(s, x, 0);
    var k, l := CarrierOf(s, y, 0);
    assert s.topk[s.gate[x]] == x && s.topk[s.gate[y]] == y;
    assert CombinePhase(s)[i][j].from != CombinePhase(s)[k][l].from;
  }

  lemma LeftoverPair(s: Setup, per: nat)
    requires s.nRanks > 0 && per == s.SlotsPerRank() > 0
    ensures HomeCell(s, s.nRanks * per, 0) == HomeCell(s, s.nRanks * per + per, 0) == Cell(NOWHERE, 0, 0)
  {
    DigitsDecode(s.nRanks, 0, per);
    assert s.nRanks * per + per == (s.nRanks + 1) * per + 0;
    DigitsDecode(s.nRanks + 1, 0, per);
  }

  /** Three ranks with one token each, out of five tokens: the launch admits it, and two rows collide. */
  function FiveOnThree(): Setup {
    Setup(3, 1, 5, 1, 1, 512, [[1], [0], [0]], [0, 0, 0, 0, 0], [0, 1, 2, 3, 4], [0, 1, 2, 3, 4])
  }

  lemma FiveOnThreeCollides()
    ensures Valid(FiveOnThree()) && !DistinctTargets(CombinePhase(FiveOnThree()))
  {
    var s := FiveOnThree();
    assert s.mask[0][0] == 1 && Assignment.Bit(1, 0);
    Assignment.ZeroHasNoBit(0);
    assert Owner(s.mask, 0, 0);
    assert OneOwner(s.mask, 0);
    LeftoverCollides(s);
  }

  /**
   No two combine copies store to the same place if and only if no more slots are left over than one
   rank's share, or there is nothing to store.
   */
  lemma CombineTargetsDistinctExactly(s: Setup)
    requires Valid(s) && s.nRanks > 0
    ensures DistinctTargets(CombinePhase(s)) <==> LeftoverFits(s) || s.nCols == 0
  {
    if LeftoverFits(s) {
      CombineTargetsDistinct(s);
    } else if s.nCols > 0 {
      LeftoverCollides(s);
    } else {
      NothingToStore(s);
    }
  }

  lemma NothingToStore(s: Setup)
    requires Valid(s) && s.nCols == 0
    ensures DistinctTargets(CombinePhase(s))
  {
    var phase: seq<seq<Copy>> := CombinePhase(s);
    forall i: nat | i < |phase| ensures phase[i] == [] {
      var rank, pid := CombineInstanceAt(s, i);
      assert Pairs(s.block, 1, 0, s.nCols) == [];
    }
  }

  // ---------------------------------------------------------------------------
  // There and back
  // ---------------------------------------------------------------------------

  /** A run of the whole exchange: every instance of the first phase finishes before the second starts. */
  ghost predicate Exchanged<V>(s: Setup, src: map<Cell, V>, there: seq<nat>, back: seq<nat>, out: State<V>,
                               home: State<V>)
    requires Valid(s)
  {
    && Run(DispatchPhase(s), src, there) == Some(out) && Complete(DispatchPhase(s), out)
    && Run(CombinePhase(s), out.mem, back) == Some(home) && Complete(CombinePhase(s), home)
  }

  lemma ExchangeInvariants<V>(s: Setup, src: map<Cell, V>, there: seq<nat>, back: seq<nat>, out: State<V>,
                              home: State<V>)
    requires Valid(s) && Loaded(s, src) && Exchanged(s, src, there, back, out, home)
    ensures PhaseInvariant(DispatchPhase(s), src, out) && Tally(CombinePhase(s), out.mem, home) && !out.fault
    ensures LeftoverFits(s) ==> PhaseInvariant(CombinePhase(s), out.mem, home)
  {
    DispatchTargetsDistinct(s);
    EveryRunKeepsInvariant(DispatchPhase(s), src, there);
    EveryRunKeepsTally(CombinePhase(s), out.mem, back);
    if LeftoverFits(s) {
      CombineTargetsDistinct(s);
      EveryRunKeepsInvariant(CombinePhase(s), out.mem, back);
    }
    DispatchNeverFaults(s, src, out);
  }

  /** `nRanks` blocks of `per` slots give `per` slots to each rank. */
  lemma ShareOfSlots(nRanks: nat, nLocal: nat, nAct: nat, per: nat)
    requires nRanks > 0 && per == nLocal * nAct
    ensures nRanks * nLocal * nAct == nRanks * per
    ensures nRanks * nLocal * nAct / nRanks == per
  {
    assert nRanks * nLocal * nAct == nRanks * (nLocal * nAct);
    DigitsDecode(per, 0, nRanks);
  }

  lemma Regrouped(r: nat, nLocal: nat, nAct: nat, a: nat, b: nat)
    ensures r * (nLocal * nAct) + (a * nAct + b) == (r * nLocal + a) * nAct + b
  {
  }

  /** Slot `i` of rank `r` belongs to that rank's token `i / nAct`. */
  lemma TokenOfSlot(nLocal: nat, nAct: nat, per: nat, r: nat, i: nat, x: nat)
    requires per == nLocal * nAct && i < per && x == r * per + i
    ensures nAct > 0 && nLocal > 0 && i / nAct < nLocal
    ensures x / nAct / nLocal == r && x / nAct % nLocal == i / nAct
  {
    QuotientInRange(i, nLocal, nAct);
    var a, b := i / nAct, i % nAct;
    Regrouped(r, nLocal, nAct, a, b);
    DigitsDecode(r * nLocal + a, b, nAct);
    DigitsDecode(r, a, nLocal);
  }

  ghost predicate AllTokensHeld(s: Setup) { s.nRanks * s.nLocal == s.nGlobal }

  /** With every token held by a rank, the way back deals whole blocks of slots to the ranks. */
  lemma WholeBlocks(s: Setup, per: nat)
    requires AllTokensHeld(s) && s.nRanks > 0 && per == s.nLocal * s.nAct
    ensures s.Slots() == Dispatched(s) == s.nRanks * per && s.SlotsPerRank() == per
  {
    ShareOfSlots(s.nRanks, s.nLocal, s.nAct, per);
  }

  lemma NothingLeftOver(s: Setup)
    requires AllTokensHeld(s)
    ensures LeftoverFits(s)
  {
    if s.nRanks > 0 {
      var per := s.nLocal * s.nAct;
      WholeBlocks(s, per);
      DigitsDecode(per, 0, s.nRanks);
    }
  }

  /** The slot that row `i` of rank `r` stands for. */
  lemma SlotOfRow(s: Setup, r: nat, i: nat) returns (x: nat)
    requires Valid(s) && AllTokensHeld(s) && r < s.nRanks && i < s.nLocal * s.nAct
    ensures x < Dispatched(s) && x < s.Slots() && s.nAct > 0 && s.nLocal > 0
    ensures HomeRank(s, x) == r && x - r * s.SlotsPerRank() == i
    ensures forall c :: SlotSource(s, x, c) == Cell(r, i / s.nAct, c)
  {
    var per := s.nLocal * s.nAct;
    WholeBlocks(s, per);
    x := r * per + i;
    InBlock(r, s.nRanks, per, i);
    DigitsDecode(r, i, per);
    TokenOfSlot(s.nLocal, s.nAct, per, r, i, x);
  }

  /** An element of the output rows. */
  ghost predicate OutputCell(s: Setup, cell: Cell) {
    0 <= cell.rank < s.nRanks && 0 <= cell.row < s.nLocal * s.nAct && 0 <= cell.col < s.nCols
  }

  lemma Carried<V>(programs: seq<seq<Copy>>, mem: map<Cell, V>, home: State<V>, i: nat, j: nat, from: Cell, to: Cell)
    requires PhaseInvariant(programs, mem, home) && Complete(programs, home)
    requires i < |programs| && j < |programs[i]| && programs[i][j] == Copy(from, to) && from in mem
    ensures to in home.mem && home.mem[to] == mem[from] && to in home.log
  {
    IssuedCopyArrived(programs, mem, home, i, j);
  }

  lemma SlotReturns<V>(s: Setup, mem: map<Cell, V>, home: State<V>, x: nat, c: int)
    requires Valid(s) && x < s.Slots() && 0 <= c < s.nCols && SlotTarget(s, x, c) in mem
    requires PhaseInvariant(CombinePhase(s), mem, home) && Complete(CombinePhase(s), home)
    ensures HomeCell(s, x, c) in home.mem && home.mem[HomeCell(s, x, c)] == mem[SlotTarget(s, x, c)]
    ensures HomeCell(s, x, c) in home.log
  {
    var k, j := CarrierOf(s, x, c);
    Carried(CombinePhase(s), mem, home, k, j, SlotTarget(s, x, c), HomeCell(s, x, c));
  }

  /** The element of the token row that an output row stands for. */
  function TokenCell(s: Setup, cell: Cell): Cell {
    Cell(cell.rank, if s.nAct == 0 then 0 else cell.row / s.nAct, cell.col)
  }

  /** Row `i` on rank `r` comes back as the token row it was made from. */
  lemma RowComesHome<V>(s: Setup, src: map<Cell, V>, out: State<V>, home: State<V>, cell: Cell)
    requires Valid(s) && Loaded(s, src) && AllTokensHeld(s) && OutputCell(s, cell)
    requires PhaseInvariant(DispatchPhase(s), src, out) && Complete(DispatchPhase(s), out)
    requires PhaseInvariant(CombinePhase(s), out.mem, home) && Complete(CombinePhase(s), home)
    ensures TokenCell(s, cell) in src && cell in home.mem && home.mem[cell] == src[TokenCell(s, cell)]
    ensures cell in home.log
  {
    var x := RowAddress(s, cell);
    DispatchDelivers(s, src, out, x, cell.col);
    SlotReturns(s, out.mem, home, x, cell.col);
  }

  lemma RowAddress(s: Setup, cell: Cell) returns (x: nat)
    requires Valid(s) && AllTokensHeld(s) && OutputCell(s, cell)
    ensures x < Dispatched(s) && x < s.Slots() && s.nAct > 0 && s.nLocal > 0
    ensures SlotSource(s, x, cell.col) == TokenCell(s, cell) && HomeCell(s, x, cell.col) == cell
  {
    x := SlotOfRow(s, cell.rank, cell.row);
    assert SlotSource(s, x, cell.col) == TokenCell(s, cell);
  }

  /** Nothing is stored outside the output rows. */
  lemma OnlyRowsComeHome<V>(s: Setup, mem: map<Cell, V>, home: State<V>, cell: Cell)
    requires Valid(s) && AllTokensHeld(s)
    requires Tally(CombinePhase(s), mem, home) && cell in home.log
    ensures OutputCell(s, cell)
  {
    var i: nat, j: nat :| Issued(CombinePhase(s), home, i, j) && CombinePhase(s)[i][j].to == cell;
    CombineOpAt(s, i, j);
    HomeInRange(s, s.topk[i % s.Slots()]);
  }

  lemma HomeInRange(s: Setup, slot: nat)
    requires AllTokensHeld(s) && slot < s.Slots()
    ensures 0 <= HomeRank(s, slot) < s.nRanks
    ensures 0 <= slot - HomeRank(s, slot) * s.SlotsPerRank() < s.nLocal * s.nAct
  {
    var per := s.nLocal * s.nAct;
    WholeBlocks(s, per);
    QuotientInRange(slot, s.nRanks, per);
  }

  /** Every element of every output row is the element of the token row it stands for. */
  ghost predicate RowsRestored<V>(s: Setup, src: map<Cell, V>, home: State<V>) {
    forall cell | OutputCell(s, cell) ::
      TokenCell(s, cell) in src && cell in home.mem && home.mem[cell] == src[TokenCell(s, cell)]
  }

  /** Exactly the output rows are stored to. */
  ghost predicate RowsWritten<V>(s: Setup, home: State<V>) {
    forall cell :: cell in home.log <==> OutputCell(s, cell)
  }

  /**
   In every interleaving, the exchange stores to each output element exactly once, forwards no
   unwritten element, and leaves row i of rank r equal to that rank's token row i / nAct.
   */
  lemma RoundTrip<V>(s: Setup, src: map<Cell, V>, there: seq<nat>, back: seq<nat>, out: State<V>, home: State<V>)
    requires Valid(s) && Loaded(s, src) && Exchanged(s, src, there, back, out, home)
    requires AllTokensHeld(s)
    ensures Distinct(out.log) && Distinct(home.log) && RowsWritten(s, home)
    ensures !out.fault && !home.fault
    ensures RowsRestored(s, src, home)
  {
    NothingLeftOver(s);
    ExchangeInvariants(s, src, there, back, out, home);
    forall cell | OutputCell(s, cell)
      ensures TokenCell(s, cell) in src && cell in home.mem && home.mem[cell] == src[TokenCell(s, cell)]
      ensures cell in home.log
    {
      RowComesHome(s, src, out, home, cell);
    }
    forall cell | cell in home.log ensures OutputCell(s, cell) { OnlyRowsComeHome(s, out.mem, home, cell); }
    ForwardsUnwrittenExactly(s, src, there, back, out, home);
  }

  /** A row that some rank is asked to return was delivered to it, if its slot was dispatched. */
  lemma CombineSourceWritten<V>(s: Setup, src: map<Cell, V>, out: State<V>, i: nat, j: nat)
    requires Valid(s) && Loaded(s, src) && s.Slots() == Dispatched(s)
    requires PhaseInvariant(DispatchPhase(s), src, out) && Complete(DispatchPhase(s), out)
    requires i < s.nRanks * s.Slots() && j < |CombinePhase(s)[i]|
    ensures CombinePhase(s)[i][j].from in out.mem
  {
    CombineOpAt(s, i, j);
    var x := s.topk[i % s.Slots()];
    OwnerRankOwns(s.mask, s.experts[x]);
    DispatchDelivers(s, src, out, x, Pairs(s.block, 1, 0, s.nCols)[j].col);
  }

  /** A slot nobody dispatched is still returned, so its unwritten row is read. */
  lemma UndispatchedSlotFaults<V>(s: Setup, src: map<Cell, V>, out: State<V>, home: State<V>)
    requires Valid(s) && Dispatched(s) < s.Slots() && s.nCols > 0
    requires PhaseInvariant(DispatchPhase(s), src, out)
    requires Tally(CombinePhase(s), out.mem, home) && Complete(CombinePhase(s), home)
    ensures home.fault
  {
    var x := Dispatched(s);
    var k, j := CarrierOf(s, x, 0);
    if SlotTarget(s, x, 0) in out.mem { WrittenWasDispatched(s, src, out, x, 0); }
    IssuedCopyTold(CombinePhase(s), out.mem, home, k, j);
  }

  lemma WrittenWasDispatched<V>(s: Setup, src: map<Cell, V>, out: State<V>, x: nat, c: int)
    requires Valid(s) && PhaseInvariant(DispatchPhase(s), src, out) && x < s.Slots() && SlotTarget(s, x, c) in out.mem
    ensures x < Dispatched(s)
  {
    DispatchWritesOnly(s, src, out, SlotTarget(s, x, c));
    var y: nat :| y < Dispatched(s) && y < s.Slots() && SlotTarget(s, x, c) == SlotTarget(s, y, c);
    DispatchTargetGivesSlot(s, x, y, c, c);
  }

  lemma AllDispatchedExactly(held: nat, nGlobal: nat, nAct: nat)
    requires held <= nGlobal
    ensures held < nGlobal && nAct > 0 ==> held * nAct < nGlobal * nAct
    ensures held == nGlobal || nAct == 0 ==> held * nAct == nGlobal * nAct
  {
    if held < nGlobal && nAct > 0 { InBlock(held, nGlobal, nAct, 0); }
  }

  lemma AllDispatchedNoFault<V>(s: Setup, src: map<Cell, V>, out: State<V>, home: State<V>)
    requires Valid(s) && Loaded(s, src) && s.Slots() == Dispatched(s)
    requires PhaseInvariant(DispatchPhase(s), src, out) && Complete(DispatchPhase(s), out)
    requires Tally(CombinePhase(s), out.mem, home)
    ensures !home.fault
  {
    forall i, j | Issued(CombinePhase(s), home, i, j) ensures CombinePhase(s)[i][j].from in out.mem {
      CombineSourceWritten(s, src, out, i, j);
    }
  }

  lemma NoColumnsNoFault<V>(s: Setup, out: State<V>, home: State<V>)
    requires Valid(s) && s.nCols == 0 && Tally(CombinePhase(s), out.mem, home)
    ensures !home.fault
  {
    if home.fault {
      var i: nat, j: nat :| Issued(CombinePhase(s), home, i, j);
      CombineOpAt(s, i, j);
    }
  }

  /**
   The launch only checks that the ranks hold no more tokens than there are. The exchange forwards
   an unwritten row exactly when some token is held by no rank.
   */
  lemma ForwardsUnwrittenExactly<V>(s: Setup, src: map<Cell, V>, there: seq<nat>, back: seq<nat>, out: State<V>,
                                    home: State<V>)
    requires Valid(s) && Loaded(s, src) && Exchanged(s, src, there, back, out, home)
    ensures home.fault <==> s.nRanks * s.nLocal < s.nGlobal && s.nAct > 0 && s.nCols > 0
  {
    ExchangeInvariants(s, src, there, back, out, home);
    AllDispatchedExactly(s.nRanks * s.nLocal, s.nGlobal, s.nAct);
    if s.nRanks * s.nLocal < s.nGlobal && s.nAct > 0 {
      if s.nCols > 0 { UndispatchedSlotFaults(s, src, out, home); }
    } else {
      AllDispatchedNoFault(s, src, out, home);
    }
    if s.nCols == 0 { NoColumnsNoFault(s, out, home); }
  }

  /** The home of a stored cell's slot is no rank exactly if the cell lies in no buffer. */
  lemma StoredHome<V>(s: Setup, mem: map<Cell, V>, home: State<V>, cell: Cell) returns (x: nat)
    requires Valid(s) && Tally(CombinePhase(s), mem, home) && cell in home.log
    ensures x < s.Slots() && s.nCols > 0 && (cell.rank == NOWHERE <==> !IsRank(s, HomeRank(s, x)))
  {
    var i: nat, j: nat :| Issued(CombinePhase(s), home, i, j) && CombinePhase(s)[i][j].to == cell;
    CombineOpAt(s, i, j);
    x := s.topk[i % s.Slots()];
  }

  /**
   The way back takes the slots per rank from the number of rows. In every complete exchange it
   stores to no rank's buffer exactly when the ranks do not divide the slots.
   */
  lemma StoresNowhereExactly<V>(s: Setup, src: map<Cell, V>, there: seq<nat>, back: seq<nat>, out: State<V>,
                                home: State<V>)
    requires Valid(s) && Loaded(s, src) && Exchanged(s, src, there, back, out, home) && s.nRanks > 0
    ensures (exists cell :: cell in home.log && cell.rank == NOWHERE) <==> s.Slots() % s.nRanks != 0 && s.nCols > 0
  {
    ExchangeInvariants(s, src, there, back, out, home);
    if cell :| cell in home.log && cell.rank == NOWHERE {
      var x := StoredHome(s, out.mem, home, cell);
      HomesAreRanksExactly(s);
    }
    if s.Slots() % s.nRanks != 0 && s.nCols > 0 {
      var cell := LeftoverIsStored(s, out.mem, home);
    }
  }

  lemma LeftoverIsStored<V>(s: Setup, mem: map<Cell, V>, home: State<V>) returns (cell: Cell)
    requires Valid(s) && s.nRanks > 0 && s.Slots() % s.nRanks != 0 && s.nCols > 0
    requires Tally(CombinePhase(s), mem, home) && Complete(CombinePhase(s), home)
    ensures cell in home.log && cell.rank == NOWHERE
  {
    HomesAreRanksExactly(s);
    var x: nat :| x < s.Slots() && !IsRank(s, HomeRank(s, x));
    var k, j := CarrierOf(s, x, 0);
    IssuedCopyTold(CombinePhase(s), mem, home, k, j);
    cell := HomeCell(s, x, 0);
  }

  // ---------------------------------------------------------------------------
  // The mask comes from the assignment
  // ---------------------------------------------------------------------------

  ghost function MaskRows(bitmask: array2<bv32>): (r: seq<seq<bv32>>)
    reads bitmask
    ensures |r| == bitmask.Length0
    ensures forall i | 0 <= i < |r| ::
              |r[i]| == bitmask.Length1 && forall j | 0 <= j < |r[i]| :: r[i][j] == bitmask[i, j]
  {
    seq(bitmask.Length0, i requires 0 <= i < bitmask.Length0 reads bitmask =>
      seq(bitmask.Length1, j requires 0 <= j < bitmask.Length1 reads bitmask => bitmask[i, j]))
  }

  /** An accepted assignment gives every expert one owner in the mask, as the kernels rely on. */
  lemma AssignmentGivesOwners(nShard: nat, nTot: nat, d: Assignment.Dict,
                              bitmask: array2<bv32>, boolmask: array2<bool>, exptMap: array2<int>, perShard: seq<int>,
                              e: int)
    requires Assignment.ValidDict(nShard, nTot, d) && 0 <= e < nTot
    requires Assignment.TablesCorrect(nShard, nTot, d, bitmask, boolmask, exptMap, perShard)
    ensures OneOwner(MaskRows(bitmask), e)
    ensures forall r | 0 <= r < nShard :: Owner(MaskRows(bitmask), r, e) <==> Assignment.Owns(d, r, e)
  {
    var mask := MaskRows(bitmask);
    Assignment.OneOwner(nShard, nTot, d, e);
    assert e / 32 < bitmask.Length1;
    forall r | 0 <= r < nShard ensures InMask(mask, r, e) && (HasExpert(mask, r, e) <==> Assignment.Owns(d, r, e)) {
      assert mask[r][e / 32] == bitmask[r, e / 32];
      assert Assignment.MaskBit(bitmask, r, e) == boolmask[r, e];
    }
    var k :| 0 <= k < |d| && e in d[k].1;
    assert Assignment.Owns(d, d[k].0, e);
    assert Owner(mask, d[k].0, e);
  }
}
