/** Correcting join-input statistics in a physical plan (`samkhya-datafusion/src/pre_join.rs`). */
module PreJoin {
  import opened Machine
  import opened Saturation

  const SAFE_MAX_ROWS: u64 := 0x100_0000_0000

  /** usize is taken to be 64 bits wide. */
  datatype Precision = Exact(value: u64) | Inexact(value: u64) | Absent

  datatype Statistics = Statistics(numRows: Precision, totalByteSize: Precision, distinctCounts: seq<Precision>)

  datatype Operator = Join(kind: nat) | Filter | Other(name: nat)

  /** A plan node, or an override of the statistics its input reports. */
  datatype Plan = Node(op: Operator, children: seq<Plan>) | StatsExec(input: Plan, stats: Statistics)

  datatype Result<T> = Ok(value: T) | Failed

  datatype Features = Features(
    baselineEstimate: u64,
    leftInputRows: Option<u64>,
    rightInputRows: Option<u64>,
    leftDistinct: Option<u64>,
    rightDistinct: Option<u64>,
    predicateCount: u32,
    joinDepth: u32)

  datatype Proposal = Propose(rows: u64) | Abstain | Error

  datatype Options = Options(ceiling: u64, allowBelowNative: bool, deriveCeiling: bool)

  const DEFAULT_OPTIONS: Options := Options(U64_MAX, false, true)

  /** The engine's statistics for its own nodes, the corrector, and the options. */
  datatype Env = Env(engine: Plan -> Result<Statistics>, corrector: Features -> Proposal, options: Options)

  // Reading a plan.

  predicate IsJoin(plan: Plan) {
    plan.Node? && plan.op.Join?
  }

  function ChildrenOf(plan: Plan): (children: seq<Plan>)
    ensures forall c :: c in children ==> c < plan
  {
    if plan.Node? then plan.children else [plan.input]
  }

  function StatisticsOf(env: Env, plan: Plan): Result<Statistics> {
    if plan.StatsExec? then Ok(plan.stats) else env.engine(plan)
  }

  function PrecisionValue(p: Precision): Option<u64> {
    if p.Absent? then None else Some(p.value)
  }

  function MaxDistinct(counts: seq<Precision>): Option<u64> {
    if counts == [] then None
    else
      var before, last := MaxDistinct(counts[..|counts| - 1]), PrecisionValue(counts[|counts| - 1]);
      if last.None? then before
      else if before.None? then last
      else Some(Max(before.value, last.value))
  }

  function CountFilters(plan: Plan): u32
    decreases plan, 0
  {
    var here: u32 := if plan.Node? && plan.op.Filter? then 1 else 0;
    if plan.StatsExec? then SaturatingAdd32(here, CountFilters(plan.input))
    else CountFiltersIn(plan.children, here)
  }

  function CountFiltersIn(plans: seq<Plan>, count: u32): u32
    decreases plans, 1
  {
    if plans == [] then count
    else CountFiltersIn(plans[1..], SaturatingAdd32(count, CountFilters(plans[0])))
  }

  function JoinDepth(plan: Plan): u32
    decreases plan, 0
  {
    var below := if plan.StatsExec? then JoinDepth(plan.input) else MaxJoinDepth(plan.children);
    if IsJoin(plan) then SaturatingAdd32(below, 1) else below
  }

  function MaxJoinDepth(plans: seq<Plan>): u32
    decreases plans, 1
  {
    if plans == [] then 0
    else
      var first, rest := JoinDepth(plans[0]), MaxJoinDepth(plans[1..]);
      if first < rest then rest else first
  }

  function RowsOf(env: Env, plan: Plan): Option<u64> {
    var stats := StatisticsOf(env, plan);
    if stats.Ok? then PrecisionValue(stats.value.numRows) else None
  }

  /** The saturating product of the row counts; None as soon as one is unknown. */
  function RowProduct(env: Env, plans: seq<Plan>, acc: u64): Option<u64> {
    if plans == [] then Some(acc)
    else
      var rows := RowsOf(env, plans[0]);
      if rows.None? then None else RowProduct(env, plans[1..], SaturatingMul64(acc, rows.value))
  }

  function DeriveInputCeiling(env: Env, plan: Plan): Option<u64> {
    var children := ChildrenOf(plan);
    var ceiling :=
      if IsJoin(plan) && children != [] then RowProduct(env, children, 1)
      else if plan.Node? && plan.op.Filter? && |children| == 1 then RowsOf(env, children[0])
      else None;
    if ceiling.Some? && ceiling.value < U64_MAX then ceiling else None
  }

  ghost predicate AllKnown(env: Env, plans: seq<Plan>) {
    forall k | 0 <= k < |plans| :: RowsOf(env, plans[k]).Some?
  }

  ghost function KnownRows(env: Env, plans: seq<Plan>): (rows: seq<nat>)
    requires AllKnown(env, plans)
    ensures |rows| == |plans|
  {
    seq(|plans|, k requires 0 <= k < |plans| => RowsOf(env, plans[k]).value)
  }

  lemma SaturateOnce(x: nat, rows: u64)
    ensures SaturatingMul64(Clamp(x), rows) == Clamp(x * rows)
  {
    if x > U64_MAX && rows > 0 {
      MulMonotone(U64_MAX, 1, x, rows);
      MulMonotone(U64_MAX, 1, U64_MAX, rows);
    }
  }

  lemma {:induction false} RowProductIsExact(env: Env, plans: seq<Plan>, x: nat)
    ensures RowProduct(env, plans, Clamp(x)) ==
            if AllKnown(env, plans) then Some(Clamp(x * Product(KnownRows(env, plans)))) else None
  {
    if plans != [] {
      var first, rest := RowsOf(env, plans[0]), plans[1..];
      assert AllKnown(env, plans) <==> first.Some? && AllKnown(env, rest) by {
        assert forall k | 0 <= k < |rest| :: rest[k] == plans[k + 1];
        assert AllKnown(env, rest) && first.Some? ==> forall k | 0 < k < |plans| :: plans[k] == rest[k - 1];
      }
      if first.Some? {
        SaturateOnce(x, first.value);
        RowProductIsExact(env, rest, x * first.value);
        if AllKnown(env, plans) {
          assert KnownRows(env, plans)[1..] == KnownRows(env, rest);
          UnrollProduct(x, KnownRows(env, plans));
        }
      }
    }
  }

  /**
    The derived ceiling is the exact product of the inputs' row counts.  There is one just
    for joins and one-input filters whose inputs' rows are all known, and only below u64::MAX:
    no saturated product is taken for a ceiling, and a later zero undoes saturation.
   */
  lemma DerivedCeilingIsProduct(env: Env, plan: Plan)
    ensures DeriveInputCeiling(env, plan) ==
            if && plan.Node?
               && ((plan.op.Join? && plan.children != []) || (plan.op.Filter? && |plan.children| == 1))
               && AllKnown(env, plan.children) && Product(KnownRows(env, plan.children)) < U64_MAX
            then Some(Product(KnownRows(env, plan.children))) else None
  {
    if plan.Node? {
      RowProductIsExact(env, plan.children, 1);
    }
  }

  // Correcting one input.

  datatype PairFeatures = PairFeatures(
    leftRows: Option<u64>, rightRows: Option<u64>, leftDistinct: Option<u64>, rightDistinct: Option<u64>)

  function PairOf(left: Statistics, right: Statistics): PairFeatures {
    PairFeatures(PrecisionValue(left.numRows), PrecisionValue(right.numRows),
                 MaxDistinct(left.distinctCounts), MaxDistinct(right.distinctCounts))
  }

  function FeaturesOf(input: Plan, native: u64, pair: PairFeatures): Features {
    Features(native, pair.leftRows, pair.rightRows, pair.leftDistinct, pair.rightDistinct,
             CountFilters(input), JoinDepth(input))
  }

  function EffectiveCeiling(env: Env, input: Plan): u64 {
    var derived := if env.options.deriveCeiling then DeriveInputCeiling(env, input) else None;
    if derived.Some? then Min(env.options.ceiling, derived.value) else env.options.ceiling
  }

  function DivCeil(a: nat, b: nat): nat
    requires b > 0
  {
    (a + b - 1) / b
  }

  function ScaleByteSize(size: Precision, native: u64, corrected: u64): Precision {
    if size.Absent? || native == 0 then Absent
    else Inexact(Min(DivCeil(SaturatingMul128(size.value, corrected), native), U64_MAX))
  }

  /** What happens to an input, with the counters that see it. */
  datatype Decision =
    | NoEstimate
    | Abstained
    | Errored
    | Unchanged(clamped: bool, floored: bool)
    | Applied(rows: u64, stats: Statistics, clamped: bool)

  function Decide(env: Env, input: Plan, stats: Statistics, pair: PairFeatures): Decision {
    var rows := PrecisionValue(stats.numRows);
    if rows.None? then NoEstimate
    else
      var native := rows.value;
      match env.corrector(FeaturesOf(input, native, pair))
      case Abstain => Abstained
      case Error => Errored
      case Propose(proposed) =>
        var capped := Min(Min(proposed, EffectiveCeiling(env, input)), SAFE_MAX_ROWS);
        var floored := !env.options.allowBelowNative && capped < native;
        var bounded := if floored then native else capped;
        if bounded == native then Unchanged(capped != proposed, floored)
        else
          Applied(bounded,
                  stats.(numRows := Inexact(bounded), totalByteSize := ScaleByteSize(stats.totalByteSize, native, bounded)),
                  capped != proposed)
  }

  function Corrected(input: Plan, decision: Decision): Plan {
    if decision.Applied? then StatsExec(input, decision.stats) else input
  }

  // Rewriting a plan, bottom up.

  function CorrectJoinInputs(env: Env, plan: Plan): Result<Plan> {
    if !IsJoin(plan) || |plan.children| != 2 then Ok(plan)
    else
      var left, right := plan.children[0], plan.children[1];
      var leftStats, rightStats := StatisticsOf(env, left), StatisticsOf(env, right);
      if leftStats.Failed? || rightStats.Failed? then Failed
      else
        var pair := PairOf(leftStats.value, rightStats.value);
        Ok(Node(plan.op, [Corrected(left, Decide(env, left, leftStats.value, pair)),
                          Corrected(right, Decide(env, right, rightStats.value, pair))]))
  }

  function Rewrite(env: Env, plan: Plan): Result<Plan>
    decreases plan, 0
  {
    match plan
    case StatsExec(input, stats) =>
      var inner := Rewrite(env, input);
      if inner.Ok? then Ok(StatsExec(inner.value, stats)) else Failed
    case Node(op, children) =>
      var rewritten := RewriteAll(env, children);
      if rewritten.Ok? then CorrectJoinInputs(env, Node(op, rewritten.value)) else Failed
  }

  function RewriteAll(env: Env, plans: seq<Plan>): (r: Result<seq<Plan>>)
    ensures r.Ok? ==> |r.value| == |plans|
    decreases plans, 1
  {
    if plans == [] then Ok([])
    else
      assert plans == plans[..|plans| - 1] + [plans[|plans| - 1]];
      var before := RewriteAll(env, plans[..|plans| - 1]);
      if before.Failed? then Failed
      else
        var last := Rewrite(env, plans[|plans| - 1]);
        if last.Ok? then Ok(before.value + [last.value]) else Failed
  }

  // What the corrector is asked, without the functions that compute it.

  /** An override reports the statistics it carries; any other node what the engine says. */
  ghost predicate Reports(env: Env, plan: Plan, stats: Statistics) {
    match plan
    case StatsExec(_, carried) => stats == carried
    case Node(_, _) => env.engine(plan) == Ok(stats)
  }

  ghost predicate IsKnownAs(p: Precision, value: Option<u64>) {
    match p
    case Exact(v) => value == Some(v)
    case Inexact(v) => value == Some(v)
    case Absent => value == None
  }

  lemma RowsAreReported(env: Env, plan: Plan, rows: u64)
    ensures RowsOf(env, plan) == Some(rows) <==> exists stats :: Reports(env, plan, stats) && IsKnownAs(stats.numRows, Some(rows))
  {
    if RowsOf(env, plan) == Some(rows) {
      assert Reports(env, plan, StatisticsOf(env, plan).value);
    }
  }

  /** The greatest of the known counts: one of them, none above it; None just when none is known. */
  ghost predicate IsGreatest(counts: seq<Precision>, greatest: Option<u64>) {
    && (forall c, v: u64 | c in counts && IsKnownAs(c, Some(v)) :: greatest.Some? && v <= greatest.value)
    && (greatest.Some? ==> exists c :: c in counts && IsKnownAs(c, greatest))
  }

  lemma {:induction false} MaxDistinctIsGreatest(counts: seq<Precision>)
    ensures IsGreatest(counts, MaxDistinct(counts))
  {
    if counts != [] {
      var before, last := counts[..|counts| - 1], counts[|counts| - 1];
      MaxDistinctIsGreatest(before);
      assert forall c :: c in counts <==> c in before || c == last;
      if !last.Absent? && MaxDistinct(counts) == Some(last.value) {
        assert last in counts && IsKnownAs(last, MaxDistinct(counts));
      } else if MaxDistinct(before).Some? {
        var c :| c in before && IsKnownAs(c, MaxDistinct(before));
        assert c in counts;
      }
    }
  }

  ghost function FilterNodes(plan: Plan): nat
    decreases plan, 0
  {
    match plan
    case StatsExec(input, _) => FilterNodes(input)
    case Node(op, children) => FilterNodesIn(children) + if op.Filter? then 1 else 0
  }

  ghost function FilterNodesIn(plans: seq<Plan>): nat
    decreases plans, 1
  {
    if plans == [] then 0 else FilterNodes(plans[0]) + FilterNodesIn(plans[1..])
  }

  function Clamp32(x: nat): u32 {
    Min(x, U32_SPAN - 1)
  }

  lemma {:induction false} FiltersAreCounted(plan: Plan)
    ensures CountFilters(plan) == Clamp32(FilterNodes(plan))
    decreases plan, 0
  {
    match plan
    case StatsExec(input, _) => FiltersAreCounted(input);
    case Node(op, children) => FiltersInAreCounted(children, if op.Filter? then 1 else 0);
  }

  lemma {:induction false} FiltersInAreCounted(plans: seq<Plan>, x: nat)
    ensures CountFiltersIn(plans, Clamp32(x)) == Clamp32(x + FilterNodesIn(plans))
    decreases plans, 1
  {
    if plans != [] {
      FiltersAreCounted(plans[0]);
      FiltersInAreCounted(plans[1..], x + FilterNodes(plans[0]));
    }
  }

  /** A way down from the plan: each node is a child of the one before. */
  ghost predicate IsPathDown(plan: Plan, path: seq<Plan>)
    decreases |path|
  {
    && path != [] && path[0] == plan
    && (|path| > 1 ==> IsChild(path[1], plan) && IsPathDown(path[1], path[1..]))
  }

  ghost predicate IsChild(child: Plan, plan: Plan) {
    if plan.Node? then child in plan.children else child == plan.input
  }

  ghost function JoinsOn(path: seq<Plan>): nat {
    if path == [] then 0 else JoinsOn(path[1..]) + if path[0].Node? && path[0].op.Join? then 1 else 0
  }

  /** The most joins on any way down. */
  ghost predicate IsDepth(plan: Plan, depth: nat) {
    && (exists path :: IsPathDown(plan, path) && JoinsOn(path) == depth)
    && (forall path | IsPathDown(plan, path) :: JoinsOn(path) <= depth)
  }

  ghost function Depth(plan: Plan): nat
    decreases plan, 0
  {
    match plan
    case StatsExec(input, _) => Depth(input)
    case Node(op, children) => DepthIn(children) + if op.Join? then 1 else 0
  }

  ghost function DepthIn(plans: seq<Plan>): nat
    decreases plans, 1
  {
    if plans == [] then 0 else Max(Depth(plans[0]), DepthIn(plans[1..]))
  }

  lemma {:induction false} JoinDepthIsDepth(plan: Plan)
    ensures JoinDepth(plan) == Clamp32(Depth(plan))
    decreases plan, 0
  {
    match plan
    case StatsExec(input, _) => JoinDepthIsDepth(input);
    case Node(op, children) => MaxJoinDepthIsDepth(children);
  }

  lemma {:induction false} MaxJoinDepthIsDepth(plans: seq<Plan>)
    ensures MaxJoinDepth(plans) == Clamp32(DepthIn(plans))
    decreases plans, 1
  {
    if plans != [] {
      JoinDepthIsDepth(plans[0]);
      MaxJoinDepthIsDepth(plans[1..]);
    }
  }

  lemma {:induction false} DepthInIsGreatest(plans: seq<Plan>)
    ensures forall p | p in plans :: Depth(p) <= DepthIn(plans)
    ensures plans != [] ==> exists p :: p in plans && Depth(p) == DepthIn(plans)
  {
    if plans != [] {
      DepthInIsGreatest(plans[1..]);
      assert forall p :: p in plans <==> p == plans[0] || p in plans[1..];
      if Depth(plans[0]) >= DepthIn(plans[1..]) {
        assert plans[0] in plans;
      } else {
        var p :| p in plans[1..] && Depth(p) == DepthIn(plans[1..]);
        assert p in plans;
      }
    }
  }

  lemma {:induction false} PathWithinDepth(plan: Plan, path: seq<Plan>)
    requires IsPathDown(plan, path)
    ensures JoinsOn(path) <= Depth(plan)
    decreases |path|
  {
    if |path| > 1 {
      PathWithinDepth(path[1], path[1..]);
      if plan.Node? {
        DepthInIsGreatest(plan.children);
      }
    } else {
      assert JoinsOn(path[1..]) == 0;
    }
  }

  lemma StepDown(plan: Plan, child: Plan, below: seq<Plan>)
    requires IsChild(child, plan) && IsPathDown(child, below)
    ensures IsPathDown(plan, [plan] + below)
    ensures JoinsOn([plan] + below) == JoinsOn(below) + if plan.Node? && plan.op.Join? then 1 else 0
  {
    assert ([plan] + below)[1..] == below;
  }

  lemma {:induction false} DeepestPath(plan: Plan) returns (path: seq<Plan>)
    ensures IsPathDown(plan, path) && JoinsOn(path) == Depth(plan)
    decreases plan
  {
    match plan {
      case StatsExec(input, _) =>
        var below := DeepestPath(input);
        StepDown(plan, input, below);
        path := [plan] + below;
      case Node(op, children) =>
        if children == [] {
          path := [plan];
          assert JoinsOn(path[1..]) == 0;
        } else {
          DepthInIsGreatest(children);
          var child :| child in children && Depth(child) == DepthIn(children);
          var below := DeepestPath(child);
          StepDown(plan, child, below);
          path := [plan] + below;
        }
    }
  }

  lemma DepthIsDepth(plan: Plan)
    ensures IsDepth(plan, Depth(plan))
  {
    var path := DeepestPath(plan);
    forall path | IsPathDown(plan, path) ensures JoinsOn(path) <= Depth(plan) {
      PathWithinDepth(plan, path);
    }
  }

  /**
    What the corrector is asked about an input: its native estimate; the rows each side of the
    join reports and the greatest distinct count known of either; the Filter nodes of the input
    and the most joins on any way down it, both clamped to 32 bits.
   */
  ghost predicate Asks(left: Statistics, right: Statistics, input: Plan, native: u64, q: Features) {
    && q.baselineEstimate == native
    && IsKnownAs(left.numRows, q.leftInputRows) && IsKnownAs(right.numRows, q.rightInputRows)
    && IsGreatest(left.distinctCounts, q.leftDistinct) && IsGreatest(right.distinctCounts, q.rightDistinct)
    && q.predicateCount == Min(FilterNodes(input), 0xFFFF_FFFF)
    && exists depth: nat :: IsDepth(input, depth) && q.joinDepth == Min(depth, 0xFFFF_FFFF)
  }

  /** The features computed are the only ones that answer this description. */
  lemma AsksOnlyFeatures(left: Statistics, right: Statistics, input: Plan, native: u64, q: Features)
    ensures Asks(left, right, input, native, q) <==> q == FeaturesOf(input, native, PairOf(left, right))
  {
    MaxDistinctIsGreatest(left.distinctCounts);
    MaxDistinctIsGreatest(right.distinctCounts);
    FiltersAreCounted(input);
    JoinDepthIsDepth(input);
    DepthIsDepth(input);
    if Asks(left, right, input, native, q) {
      var depth: nat :| IsDepth(input, depth) && q.joinDepth == Min(depth, 0xFFFF_FFFF);
      DepthIsUnique(input, depth, Depth(input));
      GreatestIsUnique(left.distinctCounts, q.leftDistinct, MaxDistinct(left.distinctCounts));
      GreatestIsUnique(right.distinctCounts, q.rightDistinct, MaxDistinct(right.distinctCounts));
    }
  }

  lemma DepthIsUnique(plan: Plan, a: nat, b: nat)
    requires IsDepth(plan, a) && IsDepth(plan, b)
    ensures a == b
  {
  }

  lemma GreatestIsUnique(counts: seq<Precision>, a: Option<u64>, b: Option<u64>)
    requires IsGreatest(counts, a) && IsGreatest(counts, b)
    ensures a == b
  {
  }

  // What a rewrite changes.

  /** The row count a proposal comes to: cut to every ceiling, then raised to the native estimate unless that is waived. */
  ghost function PublishedRows(env: Env, input: Plan, native: u64, proposed: u64): u64 {
    var derived := if env.options.deriveCeiling then DeriveInputCeiling(env, input) else None;
    Max(if env.options.allowBelowNative then 0 else native,
        Min(0x100_0000_0000, Min(env.options.ceiling, if derived.Some? then Min(derived.value, proposed) else proposed)))
  }

  /** An answer from the corrector carried out: no override unless it proposes a count that comes to another one. */
  ghost predicate CarriedOut(env: Env, input: Plan, stats: Statistics, native: u64, answer: Proposal, output: Plan) {
    match answer
    case Propose(proposed) =>
      var rows := PublishedRows(env, input, native, proposed);
      output ==
      if rows == native then input
      else StatsExec(input, Statistics(Inexact(rows), ScaleByteSize(stats.totalByteSize, native, rows), stats.distinctCounts))
    case Abstain => output == input
    case Error => output == input
  }

  /** What becomes of an input: without an estimate nothing; otherwise the corrector is asked and its answer carried out. */
  ghost predicate IsPublished(env: Env, left: Statistics, right: Statistics, input: Plan, stats: Statistics, output: Plan) {
    if IsKnownAs(stats.numRows, None) then output == input
    else exists native, q :: IsKnownAs(stats.numRows, Some(native)) && Asks(left, right, input, native, q) &&
                             CarriedOut(env, input, stats, native, env.corrector(q), output)
  }

  /** Both inputs of a join are published against the statistics they report before either is overridden. */
  ghost predicate PairPublished(env: Env, left: Plan, right: Plan, left': Plan, right': Plan) {
    exists leftStats, rightStats ::
      && Reports(env, left, leftStats) && Reports(env, right, rightStats)
      && IsPublished(env, leftStats, rightStats, left, leftStats, left')
      && IsPublished(env, leftStats, rightStats, right, rightStats, right')
  }

  /** q is p with the inputs of every two-child join published as above, from the leaves up, and nothing else. */
  ghost predicate RewrittenTo(env: Env, p: Plan, q: Plan)
    decreases p
  {
    match p
    case StatsExec(input, stats) => q.StatsExec? && q.stats == stats && RewrittenTo(env, input, q.input)
    case Node(op, children) =>
      && q.Node? && q.op == op && |q.children| == |children|
      && if op.Join? && |children| == 2 then
           exists left, right ::
             && RewrittenTo(env, children[0], left) && RewrittenTo(env, children[1], right)
             && PairPublished(env, left, right, q.children[0], q.children[1])
         else forall k | 0 <= k < |children| :: RewrittenTo(env, children[k], q.children[k])
  }

  lemma DecisionPublishes(env: Env, left: Statistics, right: Statistics, input: Plan, stats: Statistics, output: Plan)
    ensures IsPublished(env, left, right, input, stats, output) <==>
            output == Corrected(input, Decide(env, input, stats, PairOf(left, right)))
  {
    if !stats.numRows.Absent? {
      var native := stats.numRows.value;
      var asked := FeaturesOf(input, native, PairOf(left, right));
      AsksOnlyFeatures(left, right, input, native, asked);
      AnswerCarriedOut(env, input, stats, native, env.corrector(asked), output, PairOf(left, right));
      forall q | Asks(left, right, input, native, q) ensures q == asked {
        AsksOnlyFeatures(left, right, input, native, q);
      }
    }
  }

  lemma AnswerCarriedOut(env: Env, input: Plan, stats: Statistics, native: u64, answer: Proposal, output: Plan, pair: PairFeatures)
    requires IsKnownAs(stats.numRows, Some(native)) && answer == env.corrector(FeaturesOf(input, native, pair))
    ensures CarriedOut(env, input, stats, native, answer, output) <==> output == Corrected(input, Decide(env, input, stats, pair))
  {
  }

  lemma CorrectPublishes(env: Env, op: Operator, left: Plan, right: Plan, q: Plan)
    requires op.Join?
    ensures CorrectJoinInputs(env, Node(op, [left, right])) == Ok(q) <==>
            q.Node? && q.op == op && |q.children| == 2 && PairPublished(env, left, right, q.children[0], q.children[1])
  {
    var leftStats, rightStats := StatisticsOf(env, left), StatisticsOf(env, right);
    if leftStats.Ok? && rightStats.Ok? && q.Node? && |q.children| == 2 {
      DecisionPublishes(env, leftStats.value, rightStats.value, left, leftStats.value, q.children[0]);
      DecisionPublishes(env, leftStats.value, rightStats.value, right, rightStats.value, q.children[1]);
      assert Reports(env, left, leftStats.value) && Reports(env, right, rightStats.value);
      assert q.children == [q.children[0], q.children[1]];
    }
  }

  /** For every plan and every corrector, the rewrite succeeds with q exactly when q is the plan so published. */
  lemma {:induction false} RewriteIffPublished(env: Env, p: Plan, q: Plan)
    ensures Rewrite(env, p) == Ok(q) <==> RewrittenTo(env, p, q)
    decreases p, 0
  {
    match p
    case StatsExec(input, stats) =>
      if q.StatsExec? {
        RewriteIffPublished(env, input, q.input);
      }
    case Node(op, children) =>
      if q.Node? && q.op == op && |q.children| == |children| {
        if IsJoin(p) && |children| == 2 {
          RewriteJoin(env, p, q);
        } else {
          RewriteAllIff(env, children, q.children);
        }
      }
  }

  lemma {:induction false} RewriteJoin(env: Env, p: Plan, q: Plan)
    requires IsJoin(p) && |p.children| == 2 && q.Node? && q.op == p.op && |q.children| == 2
    ensures Rewrite(env, p) == Ok(q) <==> RewrittenTo(env, p, q)
    decreases p.children, 2
  {
    var children := p.children;
    RewriteTwo(env, children);
    if Rewrite(env, p) == Ok(q) {
      var left, right := Rewrite(env, children[0]).value, Rewrite(env, children[1]).value;
      RewriteIffPublished(env, children[0], left);
      RewriteIffPublished(env, children[1], right);
      CorrectPublishes(env, p.op, left, right, q);
    }
    if RewrittenTo(env, p, q) {
      var left, right :|
        && RewrittenTo(env, children[0], left) && RewrittenTo(env, children[1], right)
        && PairPublished(env, left, right, q.children[0], q.children[1]);
      RewriteIffPublished(env, children[0], left);
      RewriteIffPublished(env, children[1], right);
      CorrectPublishes(env, p.op, left, right, q);
    }
  }

  lemma RewriteTwo(env: Env, plans: seq<Plan>)
    requires |plans| == 2
    ensures var left, right := Rewrite(env, plans[0]), Rewrite(env, plans[1]);
            RewriteAll(env, plans) == if left.Ok? && right.Ok? then Ok([left.value, right.value]) else Failed
  {
    var before := plans[..1];
    assert before[..0] == [] && before[0] == plans[0];
    RewriteLast(env, before);
    RewriteLast(env, plans);
    var left, right := Rewrite(env, plans[0]), Rewrite(env, plans[1]);
    if left.Ok? && right.Ok? {
      assert [] + [left.value] + [right.value] == [left.value, right.value];
    }
  }

  lemma RewriteLast(env: Env, plans: seq<Plan>)
    requires plans != []
    ensures var before, last := RewriteAll(env, plans[..|plans| - 1]), Rewrite(env, plans[|plans| - 1]);
            RewriteAll(env, plans) == if before.Ok? && last.Ok? then Ok(before.value + [last.value]) else Failed
  {
  }

  lemma {:induction false} RewriteAllIff(env: Env, plans: seq<Plan>, qs: seq<Plan>)
    requires |qs| == |plans|
    ensures RewriteAll(env, plans) == Ok(qs) <==> forall k | 0 <= k < |plans| :: RewrittenTo(env, plans[k], qs[k])
    decreases plans, 1
  {
    if plans != [] {
      var n := |plans| - 1;
      assert plans == plans[..n] + [plans[n]] && qs == qs[..n] + [qs[n]];
      RewriteAllIff(env, plans[..n], qs[..n]);
      RewriteIffPublished(env, plans[n], qs[n]);
    }
  }

  /** The plan without any statistics overrides. */
  ghost function Erase(p: Plan): Plan
    decreases p
  {
    match p
    case StatsExec(input, _) => Erase(input)
    case Node(op, children) => Node(op, seq(|children|, k requires 0 <= k < |children| => Erase(children[k])))
  }

  ghost function Overrides(p: Plan): nat
    decreases p, 0
  {
    match p
    case StatsExec(input, _) => 1 + Overrides(input)
    case Node(op, children) => OverridesIn(children)
  }

  ghost function OverridesIn(plans: seq<Plan>): nat
    decreases plans, 1
  {
    if plans == [] then 0
    else
      assert plans == plans[..|plans| - 1] + [plans[|plans| - 1]];
      OverridesIn(plans[..|plans| - 1]) + Overrides(plans[|plans| - 1])
  }

  lemma OverridesOfPair(a: Plan, b: Plan)
    ensures OverridesIn([a, b]) == Overrides(a) + Overrides(b)
  {
    assert [a, b][..1] == [a] && [a][..0] == [];
    assert OverridesIn([a]) == OverridesIn([a][..0]) + Overrides(a);
  }

  /** How many overrides stand on top of each other. */
  ghost function Height(p: Plan): nat
    decreases p
  {
    if p.StatsExec? then 1 + Height(p.input) else 0
  }

  /** An input without the override that makes its stack higher than the original's. */
  ghost function Lowered(p: Plan, q: Plan): Plan {
    if q.StatsExec? && Height(q) > Height(p) then q.input else q
  }

  /** The plan q without the overrides that p, of the same shape otherwise, does not have. */
  ghost function Recovered(p: Plan, q: Plan): Plan
    decreases p
  {
    if p.StatsExec? && q.StatsExec? then StatsExec(Recovered(p.input, q.input), q.stats)
    else if p.Node? && q.Node? && |p.children| == |q.children| then
      Node(q.op, seq(|q.children|, k requires 0 <= k < |q.children| => Recovered(p.children[k], Lowered(p.children[k], q.children[k]))))
    else q
  }

  /**
    For every plan and every corrector, taking the added overrides away gives back the plan,
    with the overrides it had; erasing all of them gives back a plan that had none.
   */
  lemma {:induction false} RewriteRecovers(env: Env, p: Plan, q: Plan)
    requires RewrittenTo(env, p, q)
    ensures Recovered(p, q) == p && Height(q) == Height(p)
    ensures Erase(q) == Erase(p)
    decreases p
  {
    match p
    case StatsExec(input, _) =>
      RewriteRecovers(env, input, q.input);
    case Node(op, children) =>
      forall k | 0 <= k < |children|
        ensures Recovered(children[k], Lowered(children[k], q.children[k])) == children[k]
        ensures Erase(q.children[k]) == Erase(children[k])
      {
        var base := InputBefore(env, p, q, k);
        RewriteRecovers(env, children[k], base);
      }
  }

  /** The rewritten input, before it is overridden. */
  ghost function InputBefore(env: Env, p: Plan, q: Plan, k: nat): (base: Plan)
    requires p.Node? && RewrittenTo(env, p, q) && k < |p.children|
    ensures RewrittenTo(env, p.children[k], base)
    ensures q.children[k] == base || (q.children[k].StatsExec? && q.children[k].input == base)
  {
    if p.op.Join? && |p.children| == 2 then
      var left, right :|
        && RewrittenTo(env, p.children[0], left) && RewrittenTo(env, p.children[1], right)
        && PairPublished(env, left, right, q.children[0], q.children[1]);
      if k == 0 then left else right
    else q.children[k]
  }

  lemma {:induction false} EraseNothing(p: Plan)
    requires Overrides(p) == 0
    ensures Erase(p) == p
    decreases p
  {
    match p
    case StatsExec(_, _) =>
    case Node(op, children) =>
      forall k | 0 <= k < |children| ensures Erase(children[k]) == children[k] {
        NoneIn(children, k);
        EraseNothing(children[k]);
      }
  }

  lemma {:induction false} NoneIn(plans: seq<Plan>, k: nat)
    requires OverridesIn(plans) == 0 && k < |plans|
    ensures Overrides(plans[k]) == 0
  {
    if k < |plans| - 1 {
      NoneIn(plans[..|plans| - 1], k);
    }
  }

  // What is published.

  /** join is a two-child join somewhere in the plan. */
  ghost predicate IsPairJoinOf(plan: Plan, join: Plan)
    decreases plan
  {
    match plan
    case StatsExec(input, _) => IsPairJoinOf(input, join)
    case Node(op, children) =>
      || (op.Join? && |children| == 2 && join == plan)
      || exists k :: 0 <= k < |children| && IsPairJoinOf(children[k], join)
  }

  /** Some inputs, published against each other's statistics, are the inputs of the join. */
  ghost predicate InputsPublished(env: Env, join: Plan) {
    && join.Node? && join.op.Join? && |join.children| == 2
    && exists left, right :: PairPublished(env, left, right, join.children[0], join.children[1])
  }

  /** At every two-child join of the rewritten plan both decisions have been carried out. */
  lemma {:induction false} EveryJoinPublished(env: Env, p: Plan, q: Plan, join: Plan)
    requires RewrittenTo(env, p, q) && IsPairJoinOf(q, join)
    ensures InputsPublished(env, join)
    decreases p
  {
    match p
    case StatsExec(input, _) =>
      EveryJoinPublished(env, input, q.input, join);
    case Node(op, children) =>
      if !(op.Join? && |children| == 2 && join == q) {
        var k :| 0 <= k < |q.children| && IsPairJoinOf(q.children[k], join);
        var base := InputBefore(env, p, q, k);
        EveryJoinPublished(env, children[k], base, join);
      }
  }

  /** The input, overridden or not, reports the larger of its native estimate and the capped proposal. */
  ghost predicate LargerPublished(env: Env, left: Statistics, right: Statistics, input: Plan, stats: Statistics, output: Plan) {
    && (output == input || (output.StatsExec? && output.input == input))
    && (IsKnownAs(stats.numRows, None) ==> output == input)
    && forall native, q | IsKnownAs(stats.numRows, Some(native)) && Asks(left, right, input, native, q) ::
         match env.corrector(q)
         case Propose(proposed) => ReportsLarger(env, input, native, proposed, output)
         case Abstain => output == input
         case Error => output == input
  }

  ghost predicate ReportsLarger(env: Env, input: Plan, native: u64, proposed: u64, output: Plan) {
    var derived := DeriveInputCeiling(env, input);
    var capped := Min(if derived.Some? then Min(proposed, derived.value) else proposed, 0x100_0000_0000);
    exists stats :: Reports(env, output, stats) && IsKnownAs(stats.numRows, Some(Max(native, capped)))
  }

  ghost predicate PairLarger(env: Env, left: Plan, right: Plan, left': Plan, right': Plan) {
    exists leftStats, rightStats ::
      && Reports(env, left, leftStats) && Reports(env, right, rightStats)
      && LargerPublished(env, leftStats, rightStats, left, leftStats, left')
      && LargerPublished(env, leftStats, rightStats, right, rightStats, right')
  }

  /**
    With the default options every input of a two-child join is left, corrected or not, with
    the larger of its native estimate and the proposal cut to the derived ceiling and to 2^40.
   */
  lemma DefaultPublishesLarger(env: Env, p: Plan, q: Plan, join: Plan)
    requires env.options == DEFAULT_OPTIONS
    requires Rewrite(env, p) == Ok(q) && IsPairJoinOf(q, join)
    ensures join.Node? && join.op.Join? && |join.children| == 2
    ensures exists left, right :: PairLarger(env, left, right, join.children[0], join.children[1])
  {
    RewriteIffPublished(env, p, q);
    EveryJoinPublished(env, p, q, join);
    var left, right :| PairPublished(env, left, right, join.children[0], join.children[1]);
    var leftStats, rightStats :|
      && Reports(env, left, leftStats) && Reports(env, right, rightStats)
      && IsPublished(env, leftStats, rightStats, left, leftStats, join.children[0])
      && IsPublished(env, leftStats, rightStats, right, rightStats, join.children[1]);
    PublishedIsLarger(env, leftStats, rightStats, left, leftStats, join.children[0]);
    PublishedIsLarger(env, leftStats, rightStats, right, rightStats, join.children[1]);
    assert PairLarger(env, left, right, join.children[0], join.children[1]);
  }

  lemma PublishedIsLarger(env: Env, left: Statistics, right: Statistics, input: Plan, stats: Statistics, output: Plan)
    requires env.options == DEFAULT_OPTIONS && Reports(env, input, stats)
    requires IsPublished(env, left, right, input, stats, output)
    ensures LargerPublished(env, left, right, input, stats, output)
  {
    forall native, q | IsKnownAs(stats.numRows, Some(native)) && Asks(left, right, input, native, q)
      ensures match env.corrector(q)
              case Propose(proposed) => ReportsLarger(env, input, native, proposed, output)
              case Abstain => output == input
              case Error => output == input
    {
      AsksOnlyFeatures(left, right, input, native, q);
      DecisionPublishes(env, left, right, input, stats, output);
      AnswerCarriedOut(env, input, stats, native, env.corrector(q), output, PairOf(left, right));
      if env.corrector(q).Propose? {
        CarriedOutIsLarger(env, input, stats, native, env.corrector(q).rows, output);
      }
    }
    DecisionPublishes(env, left, right, input, stats, output);
  }

  lemma CarriedOutIsLarger(env: Env, input: Plan, stats: Statistics, native: u64, proposed: u64, output: Plan)
    requires env.options == DEFAULT_OPTIONS && Reports(env, input, stats) && IsKnownAs(stats.numRows, Some(native))
    requires CarriedOut(env, input, stats, native, Propose(proposed), output)
    ensures ReportsLarger(env, input, native, proposed, output)
  {
    var reported := if output == input then stats else output.stats;
    assert Reports(env, output, reported);
  }

  /**
    The product of two sizes below 2^64 is exact; scaling rounds up, by less than one row's
    worth.  Without a size, or without rows to spread it over, none is published.
   */
  lemma ScaledBytes(size: u64, native: u64, corrected: u64)
    ensures ScaleByteSize(Absent, native, corrected) == Absent
    ensures ScaleByteSize(Exact(size), native, corrected) == ScaleByteSize(Inexact(size), native, corrected)
    ensures var scaled := ScaleByteSize(Exact(size), native, corrected);
            if native == 0 then scaled == Absent
            else
              && scaled.Inexact?
              && (scaled.value < U64_MAX ==>
                    size * corrected <= scaled.value * native < size * corrected + native)
              && (scaled.value == U64_MAX ==> size * corrected > (U64_MAX - 1) * native)
  {
    WideProductIsExact(size, corrected);
    if native > 0 {
      RoundedUp(size * corrected, native);
      var q := DivCeil(size * corrected, native);
      if q >= U64_MAX {
        MulMonotone(U64_MAX, native, q, native);
        assert U64_MAX * native == (U64_MAX - 1) * native + native;
      }
    }
  }

  lemma RoundedUp(p: nat, native: u64)
    requires native > 0
    ensures p <= DivCeil(p, native) * native < p + native
  {
    var q := DivCeil(p, native);
    assert (p + native - 1) % native < native;
    assert p + native - 1 == q * native + (p + native - 1) % native;
  }

  // The decisions of a whole pass.

  /** The decisions made at one node, whose inputs are already rewritten. */
  ghost function DecisionsAt(env: Env, plan: Plan): seq<Decision> {
    if !IsJoin(plan) || |plan.children| != 2 then []
    else
      var left, right := plan.children[0], plan.children[1];
      var leftStats, rightStats := StatisticsOf(env, left), StatisticsOf(env, right);
      if leftStats.Failed? || rightStats.Failed? then []
      else
        var pair := PairOf(leftStats.value, rightStats.value);
        [Decide(env, left, leftStats.value, pair), Decide(env, right, rightStats.value, pair)]
  }

  /** The decisions the pass makes before it ends or fails, in order: one for each input of each two-child join. */
  ghost function Decisions(env: Env, plan: Plan): seq<Decision>
    decreases plan, 0
  {
    match plan
    case StatsExec(input, _) => Decisions(env, input)
    case Node(op, children) =>
      var rewritten := RewriteAll(env, children);
      DecisionsIn(env, children) + if rewritten.Ok? then DecisionsAt(env, Node(op, rewritten.value)) else []
  }

  ghost function DecisionsIn(env: Env, plans: seq<Plan>): seq<Decision>
    decreases plans, 1
  {
    if plans == [] then []
    else
      var n := |plans| - 1;
      assert plans == plans[..n] + [plans[n]];
      DecisionsIn(env, plans[..n]) + if RewriteAll(env, plans[..n]).Ok? then Decisions(env, plans[n]) else []
  }

  datatype Outcome = Attempt | Apply | Abstention | Failure | NoChange | Clamping | Flooring

  predicate HasOutcome(d: Decision, outcome: Outcome) {
    match outcome
    case Attempt => !d.NoEstimate?
    case Apply => d.Applied?
    case Abstention => d.Abstained?
    case Failure => d.Errored?
    case NoChange => d.Unchanged?
    case Clamping => (d.Applied? || d.Unchanged?) && d.clamped
    case Flooring => d.Unchanged? && d.floored
  }

  /** How many of the decisions have an outcome. */
  ghost function CountOf(decisions: seq<Decision>, outcome: Outcome): nat {
    if decisions == [] then 0
    else
      var n := |decisions| - 1;
      CountOf(decisions[..n], outcome) + if HasOutcome(decisions[n], outcome) then 1 else 0
  }

  lemma {:induction false} CountOfConcat(a: seq<Decision>, b: seq<Decision>, outcome: Outcome)
    ensures CountOf(a + b, outcome) == CountOf(a, outcome) + CountOf(b, outcome)
  {
    if b == [] {
      assert a + b == a;
    } else {
      var n := |b| - 1;
      assert (a + b)[..|a + b| - 1] == a + b[..n];
      CountOfConcat(a, b[..n], outcome);
    }
  }

  lemma CountOfPair(first: Decision, second: Decision, outcome: Outcome)
    ensures CountOf([first, second], outcome) == CountOf([first], outcome) + CountOf([second], outcome)
  {
    assert [first] + [second] == [first, second];
    CountOfConcat([first], [second], outcome);
  }

  /** Every attempt ends in one of four ways, only proposals are clamped, and what is floored is left as it was. */
  lemma {:induction false} OutcomesBalance(decisions: seq<Decision>)
    ensures CountOf(decisions, Attempt) ==
            CountOf(decisions, Apply) + CountOf(decisions, Abstention) + CountOf(decisions, Failure) + CountOf(decisions, NoChange)
    ensures CountOf(decisions, Clamping) <= CountOf(decisions, Apply) + CountOf(decisions, NoChange)
    ensures CountOf(decisions, Flooring) <= CountOf(decisions, NoChange)
    ensures CountOf(decisions, Attempt) <= |decisions|
  {
    if decisions != [] {
      OutcomesBalance(decisions[..|decisions| - 1]);
    }
  }

  ghost function PairJoins(p: Plan): nat
    decreases p, 0
  {
    match p
    case StatsExec(input, _) => PairJoins(input)
    case Node(op, children) => PairJoinsIn(children) + if op.Join? && |children| == 2 then 1 else 0
  }

  ghost function PairJoinsIn(plans: seq<Plan>): nat
    decreases plans, 1
  {
    if plans == [] then 0
    else
      assert plans == plans[..|plans| - 1] + [plans[|plans| - 1]];
      PairJoinsIn(plans[..|plans| - 1]) + PairJoins(plans[|plans| - 1])
  }

  /** A pass that succeeds decides every input of every two-child join once; what it applies is what it adds. */
  lemma {:induction false} DecisionsAreOverrides(env: Env, p: Plan)
    requires Rewrite(env, p).Ok?
    ensures |Decisions(env, p)| == 2 * PairJoins(p)
    ensures Overrides(Rewrite(env, p).value) == Overrides(p) + CountOf(Decisions(env, p), Apply)
    decreases p, 0
  {
    match p
    case StatsExec(input, _) =>
      DecisionsAreOverrides(env, input);
    case Node(op, children) =>
      DecisionsInAreOverrides(env, children);
      var node := Node(op, RewriteAll(env, children).value);
      AppliedAtNode(env, node);
      CountOfConcat(DecisionsIn(env, children), DecisionsAt(env, node), Apply);
  }

  lemma AppliedAtNode(env: Env, plan: Plan)
    requires plan.Node? && CorrectJoinInputs(env, plan).Ok?
    ensures Overrides(CorrectJoinInputs(env, plan).value) == Overrides(plan) + CountOf(DecisionsAt(env, plan), Apply)
    ensures |DecisionsAt(env, plan)| == if IsJoin(plan) && |plan.children| == 2 then 2 else 0
  {
    if IsJoin(plan) && |plan.children| == 2 {
      var decisions := DecisionsAt(env, plan);
      assert decisions == [decisions[0], decisions[1]];
      assert plan.children == [plan.children[0], plan.children[1]];
      CountOfPair(decisions[0], decisions[1], Apply);
      OverridesOfPair(plan.children[0], plan.children[1]);
      OverridesOfPair(Corrected(plan.children[0], decisions[0]), Corrected(plan.children[1], decisions[1]));
    }
  }

  lemma {:induction false} DecisionsInAreOverrides(env: Env, plans: seq<Plan>)
    requires RewriteAll(env, plans).Ok?
    ensures |DecisionsIn(env, plans)| == 2 * PairJoinsIn(plans)
    ensures OverridesIn(RewriteAll(env, plans).value) == OverridesIn(plans) + CountOf(DecisionsIn(env, plans), Apply)
    decreases plans, 1
  {
    if plans != [] {
      var n := |plans| - 1;
      assert plans == plans[..n] + [plans[n]];
      DecisionsInAreOverrides(env, plans[..n]);
      DecisionsAreOverrides(env, plans[n]);
      assert RewriteAll(env, plans).value[..n] == RewriteAll(env, plans[..n]).value;
      CountOfConcat(DecisionsIn(env, plans[..n]), Decisions(env, plans[n]), Apply);
    }
  }

  datatype Metrics = Metrics(attempts: nat, applied: nat, abstained: nat, errors: nat, clamped: nat, floored: nat) {
    /** These counters once each decision of a list has been counted. */
    ghost function After(decisions: seq<Decision>): Metrics {
      Metrics(attempts + CountOf(decisions, Attempt), applied + CountOf(decisions, Apply),
              abstained + CountOf(decisions, Abstention), errors + CountOf(decisions, Failure),
              clamped + CountOf(decisions, Clamping), floored + CountOf(decisions, Flooring))
    }
  }

  lemma AfterOne(m: Metrics, d: Decision)
    ensures m.After([d]) ==
            Metrics(m.attempts + if d.NoEstimate? then 0 else 1, m.applied + if d.Applied? then 1 else 0,
                    m.abstained + if d.Abstained? then 1 else 0, m.errors + if d.Errored? then 1 else 0,
                    m.clamped + if (d.Applied? || d.Unchanged?) && d.clamped then 1 else 0,
                    m.floored + if d.Unchanged? && d.floored then 1 else 0)
  {
    forall outcome ensures CountOf([d], outcome) == if HasOutcome(d, outcome) then 1 else 0 {
      assert [d][..0] == [] && CountOf([], outcome) == 0;
    }
  }

  lemma AfterBoth(m: Metrics, first: seq<Decision>, second: seq<Decision>)
    ensures m.After(first + second) == m.After(first).After(second)
  {
    forall outcome ensures CountOf(first + second, outcome) == CountOf(first, outcome) + CountOf(second, outcome) {
      CountOfConcat(first, second, outcome);
    }
  }

  // The rule and its counters.

  class SamkhyaPreJoinRule {
    const env: Env
    var attempts: nat
    var applied: nat
    var abstained: nat
    var errors: nat
    var clamped: nat
    var floored: nat

    constructor (env: Env)
      ensures this.env == env && Counters() == Metrics(0, 0, 0, 0, 0, 0)
    {
      this.env := env;
      attempts, applied, abstained, errors, clamped, floored := 0, 0, 0, 0, 0, 0;
    }

    function Counters(): Metrics
      reads this
    {
      Metrics(attempts, applied, abstained, errors, clamped, floored)
    }

    method CorrectInput(input: Plan, stats: Statistics, pair: PairFeatures) returns (output: Plan, changed: bool)
      modifies this
      ensures var d := Decide(env, input, stats, pair);
              && output == Corrected(input, d) && changed == d.Applied?
              && Counters() == old(Counters()).After([d])
    {
      AfterOne(Counters(), Decide(env, input, stats, pair));
      var rows := PrecisionValue(stats.numRows);
      if rows.None? {
        return input, false;
      }
      var nativeRows := rows.value;
      attempts := attempts + 1;
      var features := FeaturesOf(input, nativeRows, pair);
      var proposed: u64;
      match env.corrector(features) {
        case Abstain =>
          abstained := abstained + 1;
          return input, false;
        case Error =>
          errors := errors + 1;
          return input, false;
        case Propose(value) =>
          proposed := value;
      }
      var ceilingClamped := Min(Min(proposed, EffectiveCeiling(env, input)), SAFE_MAX_ROWS);
      if ceilingClamped != proposed {
        clamped := clamped + 1;
      }
      var bounded := ceilingClamped;
      if !env.options.allowBelowNative && ceilingClamped < nativeRows {
        floored := floored + 1;
        bounded := nativeRows;
      }
      if bounded == nativeRows {
        return input, false;
      }
      var corrected := stats.(numRows := Inexact(bounded),
                              totalByteSize := ScaleByteSize(stats.totalByteSize, nativeRows, bounded));
      applied := applied + 1;
      output, changed := StatsExec(input, corrected), true;
    }

    method CorrectInputs(plan: Plan) returns (result: Result<Plan>)
      modifies this
      ensures result == CorrectJoinInputs(env, plan)
      ensures Counters() == old(Counters()).After(DecisionsAt(env, plan))
    {
      if !IsJoin(plan) || |plan.children| != 2 {
        return Ok(plan);
      }
      var leftStats, rightStats := StatisticsOf(env, plan.children[0]), StatisticsOf(env, plan.children[1]);
      if leftStats.Failed? || rightStats.Failed? {
        return Failed;
      }
      var pair := PairOf(leftStats.value, rightStats.value);
      var left, leftChanged := CorrectInput(plan.children[0], leftStats.value, pair);
      var right, rightChanged := CorrectInput(plan.children[1], rightStats.value, pair);
      ghost var decisions := DecisionsAt(env, plan);
      assert [decisions[0]] + [decisions[1]] == decisions;
      AfterBoth(old(Counters()), [decisions[0]], [decisions[1]]);
      assert plan.children == [plan.children[0], plan.children[1]];
      if !leftChanged && !rightChanged {
        return Ok(plan);
      }
      result := Ok(Node(plan.op, [left, right]));
    }

    /**
      The optimizer pass.  It returns the published plan if there is one, and each counter
      has grown by the number of decisions it counts, even if the pass fails midway.
     */
    method Optimize(plan: Plan) returns (result: Result<Plan>)
      modifies this
      ensures result == Rewrite(env, plan)
      ensures result.Ok? ==> RewrittenTo(env, plan, result.value)
      ensures Counters() == old(Counters()).After(Decisions(env, plan))
      ensures attempts - old(attempts) ==
              (applied - old(applied)) + (abstained - old(abstained)) + (errors - old(errors)) +
              CountOf(Decisions(env, plan), NoChange)
      ensures result.Ok? ==> Overrides(result.value) == Overrides(plan) + applied - old(applied)
      decreases plan, 0
    {
      match plan {
        case StatsExec(input, stats) =>
          var inner := Optimize(input);
          result := if inner.Ok? then Ok(StatsExec(inner.value, stats)) else Failed;
        case Node(op, children) =>
          var rewritten := OptimizeAll(children);
          if rewritten.Failed? {
            result := Failed;
            assert Decisions(env, plan) == DecisionsIn(env, children);
          } else {
            var node := Node(op, rewritten.value);
            result := CorrectInputs(node);
            AfterBoth(old(Counters()), DecisionsIn(env, children), DecisionsAt(env, node));
          }
      }
      OutcomesBalance(Decisions(env, plan));
      if result.Ok? {
        RewriteIffPublished(env, plan, result.value);
        DecisionsAreOverrides(env, plan);
      }
    }

    method OptimizeAll(plans: seq<Plan>) returns (result: Result<seq<Plan>>)
      modifies this
      ensures result == RewriteAll(env, plans)
      ensures Counters() == old(Counters()).After(DecisionsIn(env, plans))
      decreases plans, 1
    {
      if plans == [] {
        return Ok([]);
      }
      var n := |plans| - 1;
      assert plans == plans[..n] + [plans[n]];
      var before := OptimizeAll(plans[..n]);
      if before.Failed? {
        assert DecisionsIn(env, plans) == DecisionsIn(env, plans[..n]);
        return Failed;
      }
      var last := Optimize(plans[n]);
      AfterBoth(old(Counters()), DecisionsIn(env, plans[..n]), Decisions(env, plans[n]));
      result := if last.Ok? then Ok(before.value + [last.value]) else Failed;
    }
  }

  // Installing the rule.

  /** The two rule names that matter, `samkhya_pre_join_correction` and `join_selection`, and all others. */
  datatype RuleName = PreJoinCorrection | JoinSelection | Named(name: string)

  datatype Rule = Rule(name: RuleName, id: nat)

  function Retained(rules: seq<Rule>): seq<Rule> {
    if rules == [] then []
    else
      var last := rules[|rules| - 1];
      Retained(rules[..|rules| - 1]) + if last.name != PreJoinCorrection then [last] else []
  }

  lemma {:induction false} RetainedMembers(rules: seq<Rule>)
    ensures forall x :: x in Retained(rules) <==> x in rules && x.name != PreJoinCorrection
  {
    if rules != [] {
      assert rules == rules[..|rules| - 1] + [rules[|rules| - 1]];
      RetainedMembers(rules[..|rules| - 1]);
    }
  }

  ghost predicate FirstJoinSelection(rules: seq<Rule>, at: nat) {
    && at < |rules| && rules[at].name == JoinSelection
    && forall i | 0 <= i < at :: rules[i].name != JoinSelection
  }

  method InstallPreJoinCorrector(rules: seq<Rule>, rule: Rule) returns (installed: Result<seq<Rule>>)
    requires rule.name == PreJoinCorrection
    ensures installed.Failed? <==> forall r | r in rules :: r.name != JoinSelection
    ensures installed.Ok? ==> InstalledBefore(rules, rule, installed.value)
  {
    var kept := Retained(rules);
    RetainedMembers(rules);
    for i := 0 to |kept|
      invariant forall k | 0 <= k < i :: kept[k].name != JoinSelection
    {
      if kept[i].name == JoinSelection {
        assert kept[i] in rules;
        installed := Ok(kept[..i] + [rule] + kept[i..]);
        assert FirstJoinSelection(kept, i);
        assert Inserted(kept, rule, i, installed.value);
        return;
      }
    }
    forall r | r in rules ensures r.name != JoinSelection {
      assert r.name == PreJoinCorrection || r in kept;
    }
    installed := Failed;
  }

  ghost predicate Inserted(kept: seq<Rule>, rule: Rule, at: nat, result: seq<Rule>) {
    at <= |kept| && result == kept[..at] + [rule] + kept[at..]
  }

  /** The rule stands right before the first join selection among the others, whose order is kept. */
  ghost predicate InstalledBefore(rules: seq<Rule>, rule: Rule, result: seq<Rule>) {
    exists at: nat :: FirstJoinSelection(Retained(rules), at) && Inserted(Retained(rules), rule, at, result)
  }

  lemma {:induction false} RetainedConcat(a: seq<Rule>, b: seq<Rule>)
    ensures Retained(a + b) == Retained(a) + Retained(b)
  {
    if b == [] {
      assert a + b == a;
    } else {
      assert (a + b)[..|a + b| - 1] == a + b[..|b| - 1];
      RetainedConcat(a, b[..|b| - 1]);
    }
  }

  ghost predicate Clean(rules: seq<Rule>) {
    forall i | 0 <= i < |rules| :: rules[i].name != PreJoinCorrection
  }

  lemma {:induction false} RetainedClean(rules: seq<Rule>)
    ensures Clean(Retained(rules))
  {
    if rules != [] {
      RetainedClean(rules[..|rules| - 1]);
    }
  }

  lemma {:induction false} RetainedIdempotent(rules: seq<Rule>)
    requires Clean(rules)
    ensures Retained(rules) == rules
  {
    if rules != [] {
      RetainedIdempotent(rules[..|rules| - 1]);
      assert rules == rules[..|rules| - 1] + [rules[|rules| - 1]];
    }
  }

  lemma RetainedOne(rule: Rule)
    requires rule.name == PreJoinCorrection
    ensures Retained([rule]) == []
  {
  }

  lemma RetainedAround(a: seq<Rule>, rule: Rule, b: seq<Rule>)
    requires rule.name == PreJoinCorrection
    requires Retained(a) == a && Retained(b) == b
    ensures Retained(a + [rule] + b) == a + b
  {
    RetainedConcat(a + [rule], b);
    RetainedConcat(a, [rule]);
    RetainedOne(rule);
    assert a + [] == a;
  }

  lemma CleanParts(a: seq<Rule>, b: seq<Rule>)
    requires Clean(a + b)
    ensures Clean(a) && Clean(b)
  {
    assert forall i | 0 <= i < |a| :: (a + b)[i] == a[i];
    assert forall i | 0 <= i < |b| :: (a + b)[|a| + i] == b[i];
  }

  lemma RemoveInserted(a: seq<Rule>, rule: Rule, b: seq<Rule>)
    requires rule.name == PreJoinCorrection && Clean(a) && Clean(b)
    ensures Retained(a + [rule] + b) == a + b
  {
    RetainedIdempotent(a);
    RetainedIdempotent(b);
    RetainedAround(a, rule, b);
  }

  lemma RetainedOnce(rules: seq<Rule>, first: Rule, once: seq<Rule>)
    requires first.name == PreJoinCorrection && InstalledBefore(rules, first, once)
    ensures Retained(once) == Retained(rules)
  {
    var kept := Retained(rules);
    var at: nat :| FirstJoinSelection(kept, at) && Inserted(kept, first, at, once);
    RetainedClean(rules);
    var a, b := kept[..at], kept[at..];
    assert kept == a + b;
    CleanParts(a, b);
    RemoveInserted(a, first, b);
  }

  /** Installing again replaces the earlier rule: the result is as if only the later one had been installed. */
  lemma ReinstallReplaces(rules: seq<Rule>, first: Rule, once: seq<Rule>, second: Rule, twice: seq<Rule>)
    requires first.name == second.name == PreJoinCorrection
    requires InstalledBefore(rules, first, once) && InstalledBefore(once, second, twice)
    ensures Retained(once) == Retained(rules)
    ensures InstalledBefore(rules, second, twice)
  {
    RetainedOnce(rules, first, once);
  }
}
