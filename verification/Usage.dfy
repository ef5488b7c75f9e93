/** The usage row a prepare publishes for each module: what its tokens are made of. */
module Usage {
  import opened Basics
  import opened Counting
  import opened Layout
  import opened Leasing
  import opened Reclaim

  datatype Pressure = Normal | Elevated | Critical | Overflow

  /** The share of a budget in use, in steps at seven and nine tenths and at the whole. */
  function PressureOf(used: int, budget: int): Pressure {
    var whole := Max(budget, 1);
    if used > whole then Overflow
    else if 10 * used >= 9 * whole then Critical
    else if 10 * used >= 7 * whole then Elevated
    else Normal
  }

  datatype ModuleUsage = ModuleUsage(
    allocation: ModuleAllocation, used: int, fixed: int, variable: int, pinned: int, elastic: int,
    reclaimable: int, minimumRetained: int, compressedFrom: int, compressedTo: int, compressionRatio: real,
    pressure: Pressure)

  function CompressionRatio(before: int, after: int): real {
    if before == 0 then 1.0 else after as real / before as real
  }

  /** How much a module's usage moved, against its previous usage or one token. */
  function ChangeRate(previous: int, after: int): real {
    (after - previous) as real / Max(previous, 1) as real
  }

  /** The share of the usable budget in use. */
  function Utilization(used: int, usable: int): real {
    used as real / Max(usable, 1) as real
  }

  lemma UtilizationWithinOne(used: int, usable: int)
    requires 0 <= used <= usable
    ensures 0.0 <= Utilization(used, usable) <= 1.0
    ensures Utilization(used, usable) * (if usable > 1 then usable else 1) as real == used as real
  {
    var whole := Max(usable, 1) as real;
    assert used as real / whole * whole == used as real;
  }

  function FixedTokens(chunks: seq<Chunk>, counts: Calibrated): nat {
    if chunks == [] then 0
    else (if chunks[0].fixed then CountContent(chunks[0].content, counts) else 0) + FixedTokens(chunks[1..], counts)
  }

  function PinnedTokens(m: ModuleDefinition, chunks: seq<Chunk>, counts: Calibrated): nat {
    if chunks == [] then 0
    else
      (if m.pinned || chunks[0].pinned then CountContent(chunks[0].content, counts) else 0)
      + PinnedTokens(m, chunks[1..], counts)
  }

  function UsageOf(m: ModuleDefinition, row: ModuleAllocation, chunks: seq<Chunk>, before: int, after: int,
                   counts: Calibrated): ModuleUsage {
    var fixed, pinned := FixedTokens(chunks, counts), PinnedTokens(m, chunks, counts);
    ModuleUsage(row, after, fixed, Max(after - fixed, 0), pinned, Max(after - pinned, 0), Max(after - pinned, 0),
                pinned,
                before, after, CompressionRatio(before, after), PressureOf(after, row.granted))
  }

  lemma {:induction false} PartsWithinWhole(m: ModuleDefinition, chunks: seq<Chunk>, counts: Calibrated)
    ensures FixedTokens(chunks, counts) <= CountChunks(chunks, counts)
    ensures PinnedTokens(m, chunks, counts) <= CountChunks(chunks, counts)
  {
    if chunks != [] {
      hide CountContent;
      PartsWithinWhole(m, chunks[1..], counts);
    }
  }

  /** The columns of a row add up to what the module used. */
  predicate AddsUp(u: ModuleUsage) {
    && u.fixed + u.variable == u.used && u.pinned + u.elastic == u.used && u.minimumRetained + u.reclaimable == u.used
    && 0 <= u.fixed && 0 <= u.variable && 0 <= u.pinned && 0 <= u.elastic
  }

  /** No clip at zero ever acts. */
  lemma UsageAddsUp(m: ModuleDefinition, row: ModuleAllocation, chunks: seq<Chunk>, before: int, after: int,
                    counts: Calibrated)
    requires after == CountChunks(chunks, counts)
    ensures AddsUp(UsageOf(m, row, chunks, before, after, counts))
  {
    PartsWithinWhole(m, chunks, counts);
  }
}
