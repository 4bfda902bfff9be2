/**
 The row filter and normaliser of the cleaning step. Each parsed row is
 judged on its own: it is dropped unless its type is one of the five known
 types and both account names start with `M` or `C`; a kept row with an
 amount over 200000 gets its `isFlaggedFraud` set to 1. Rows that fail to
 parse arrive as `None` and are skipped.
 */
module Cleaning {
  import opened Transactions

  /** Amounts strictly above this are flagged. */
  const FlagThreshold: real := 200000.0

  /** `name` starts with the character `M` or `C` (an empty name does not). */
  predicate StartsWithMOrC(name: string)
  {
    |name| > 0 && (name[0] == 'M' || name[0] == 'C')
  }

  /** The three conditions under which a parsed row survives cleaning. */
  predicate Keeps(t: Transaction)
  {
    IsKnownType(t.txType) && StartsWithMOrC(t.nameOrig) && StartsWithMOrC(t.nameDest)
  }

  /**
   The per-row rule, checked in the program's order: the type test, then the
   flag update, then the two name tests.
   */
  function CleanRow(t: Transaction): (r: Option<Transaction>)
    // kept exactly when all three conditions hold
    ensures r.Some? <==> Keeps(t)
    // a kept row is the input row except possibly for its flag
    ensures r.Some? ==> r.value == t.(isFlaggedFraud := r.value.isFlaggedFraud)
    // large amounts are flagged; the comparison is strict
    ensures r.Some? && t.amount > FlagThreshold ==> r.value.isFlaggedFraud == 1
    // otherwise the flag is left as it was
    ensures r.Some? && t.amount <= FlagThreshold ==> r.value.isFlaggedFraud == t.isFlaggedFraud
    // a raised flag is never cleared
    ensures r.Some? && t.isFlaggedFraud != 0 ==> r.value.isFlaggedFraud != 0
  {
    if !IsKnownType(t.txType) then
      None
    else
      var t' := if t.amount > FlagThreshold then t.(isFlaggedFraud := 1) else t;
      if !StartsWithMOrC(t'.nameOrig) then
        None
      else if !StartsWithMOrC(t'.nameDest) then
        None
      else
        Some(t')
  }

  /** The whole filter loop: rows in order, parse failures skipped, dropped rows omitted. */
  function CleanData(rows: seq<Option<Transaction>>): (out: seq<Transaction>)
    ensures |out| <= |rows|
    // every written row passes the three conditions and carries the flag its amount calls for
    ensures forall k | 0 <= k < |out| :: Keeps(out[k])
    ensures forall k | 0 <= k < |out| :: out[k].amount > FlagThreshold ==> out[k].isFlaggedFraud == 1
    decreases |rows|
  {
    if |rows| == 0 then
      []
    else
      var prev := CleanData(rows[..|rows| - 1]);
      match rows[|rows| - 1]
      case None => prev
      case Some(t) =>
        match CleanRow(t)
        case None => prev
        case Some(c) => prev + [c]
  }

  /** The output of cleaning one row on its own. */
  function CleanOne(row: Option<Transaction>): seq<Transaction>
  {
    if row.Some? && CleanRow(row.value).Some? then [CleanRow(row.value).value] else []
  }

  /**
   Rows are handled independently: cleaning a concatenation is concatenating
   the cleaned parts.
   */
  lemma {:induction false} CleanDataAppend(a: seq<Option<Transaction>>, b: seq<Option<Transaction>>)
    ensures CleanData(a + b) == CleanData(a) + CleanData(b)
    decreases |b|
  {
    if |b| > 0 {
      var b' := b[..|b| - 1];
      assert (a + b)[..|a + b| - 1] == a + b';
      assert (a + b)[|a + b| - 1] == b[|b| - 1];
      CleanDataAppend(a, b');
    } else {
      assert a + b == a;
    }
  }

  /**
   Each row contributes its own cleaned form or nothing; in particular a row
   that failed to parse contributes nothing and processing goes on.
   */
  lemma CleanDataSnoc(rows: seq<Option<Transaction>>, row: Option<Transaction>)
    ensures CleanData(rows + [row]) == CleanData(rows) + CleanOne(row)
    ensures row.None? ==> CleanData(rows + [row]) == CleanData(rows)
  {
    CleanDataAppend(rows, [row]);
    assert [row][..0] == [];
  }

  /** The positions of the rows that survive cleaning, in increasing order. */
  function KeptIndices(rows: seq<Option<Transaction>>): seq<nat>
    decreases |rows|
  {
    if |rows| == 0 then
      []
    else
      var last := |rows| - 1;
      KeptIndices(rows[..last]) + (if rows[last].Some? && Keeps(rows[last].value) then [last] else [])
  }

  /** `idx` lists positions below `n` in strictly increasing order. */
  predicate StrictlyIncreasingBelow(idx: seq<nat>, n: nat)
  {
    && (forall k | 0 <= k < |idx| :: idx[k] < n)
    && (forall k, l | 0 <= k < l < |idx| :: idx[k] < idx[l])
  }

  /** One position per output row. */
  lemma {:induction false} KeptIndicesLength(rows: seq<Option<Transaction>>)
    ensures |KeptIndices(rows)| == |CleanData(rows)|
    decreases |rows|
  {
    if |rows| > 0 {
      KeptIndicesLength(rows[..|rows| - 1]);
    }
  }

  /** The kept positions are in range and increase. */
  lemma {:induction false} KeptIndicesIncreasing(rows: seq<Option<Transaction>>)
    ensures StrictlyIncreasingBelow(KeptIndices(rows), |rows|)
    decreases |rows|
  {
    if |rows| > 0 {
      KeptIndicesIncreasing(rows[..|rows| - 1]);
    }
  }

  /** Output row `k` is the cleaned form of the input row at the `k`-th kept position. */
  lemma {:induction false} KeptIndicesRows(rows: seq<Option<Transaction>>)
    requires |KeptIndices(rows)| == |CleanData(rows)| && StrictlyIncreasingBelow(KeptIndices(rows), |rows|)
    ensures forall k | 0 <= k < |KeptIndices(rows)| ::
      rows[KeptIndices(rows)[k]].Some? && CleanRow(rows[KeptIndices(rows)[k]].value) == Some(CleanData(rows)[k])
    decreases |rows|
  {
    if |rows| > 0 {
      var last := |rows| - 1;
      var p := rows[..last];
      KeptIndicesLength(p);
      KeptIndicesIncreasing(p);
      KeptIndicesRows(p);
      var idx, out := KeptIndices(rows), CleanData(rows);
      var pidx, pout := KeptIndices(p), CleanData(p);
      forall k | 0 <= k < |idx|
        ensures rows[idx[k]].Some? && CleanRow(rows[idx[k]].value) == Some(out[k])
      {
        if k < |pidx| {
          assert idx[k] == pidx[k] && out[k] == pout[k] && rows[pidx[k]] == p[pidx[k]];
        }
      }
    }
  }

  /** A position is kept exactly when its row parsed and passes the three conditions. */
  lemma {:induction false} KeptIndicesMembership(rows: seq<Option<Transaction>>)
    ensures forall j | 0 <= j < |rows| :: j in KeptIndices(rows) <==> rows[j].Some? && Keeps(rows[j].value)
    decreases |rows|
  {
    if |rows| > 0 {
      var last := |rows| - 1;
      var p := rows[..last];
      KeptIndicesMembership(p);
      KeptIndicesIncreasing(p);
      forall j | 0 <= j < |rows|
        ensures j in KeptIndices(rows) <==> rows[j].Some? && Keeps(rows[j].value)
      {
        if j < last {
          assert rows[j] == p[j];
        }
      }
    }
  }

  /**
   The output is an order-preserving subsequence of the parsed input:
   output row `k` is the cleaned form of input row `KeptIndices(rows)[k]`,
   those positions increase, and a position is among them exactly when its
   row parsed and passes the three conditions.
   */
  lemma {:induction false} CleanDataIsOrderedFilter(rows: seq<Option<Transaction>>)
    ensures |KeptIndices(rows)| == |CleanData(rows)|
    ensures StrictlyIncreasingBelow(KeptIndices(rows), |rows|)
    ensures forall k | 0 <= k < |KeptIndices(rows)| ::
      rows[KeptIndices(rows)[k]].Some? && CleanRow(rows[KeptIndices(rows)[k]].value) == Some(CleanData(rows)[k])
    ensures forall j | 0 <= j < |rows| :: j in KeptIndices(rows) <==> rows[j].Some? && Keeps(rows[j].value)
  {
    KeptIndicesLength(rows);
    KeptIndicesIncreasing(rows);
    KeptIndicesRows(rows);
    KeptIndicesMembership(rows);
  }

  /** A cleaned row is left as it is by a second cleaning. */
  lemma CleanRowIdempotent(t: Transaction)
    requires CleanRow(t).Some?
    ensures CleanRow(CleanRow(t).value) == CleanRow(t)
  {
  }

  /** Every row of a cleaning output is a fixed point of the per-row rule. */
  lemma {:induction false} CleanDataFixedPoints(rows: seq<Option<Transaction>>)
    ensures forall k | 0 <= k < |CleanData(rows)| :: CleanRow(CleanData(rows)[k]) == Some(CleanData(rows)[k])
    decreases |rows|
  {
    if |rows| > 0 {
      CleanDataFixedPoints(rows[..|rows| - 1]);
      if rows[|rows| - 1].Some? && CleanRow(rows[|rows| - 1].value).Some? {
        CleanRowIdempotent(rows[|rows| - 1].value);
      }
    }
  }

  /** The rows of `ts` as they read back from a written file: every one parses. */
  function Reparsed(ts: seq<Transaction>): (rows: seq<Option<Transaction>>)
    ensures |rows| == |ts|
    ensures forall i | 0 <= i < |ts| :: rows[i] == Some(ts[i])
  {
    seq(|ts|, i requires 0 <= i < |ts| => Some(ts[i]))
  }

  /** Cleaning rows that are all fixed points of the per-row rule returns them unchanged. */
  lemma {:induction false} CleanDataOfFixedPoints(ts: seq<Transaction>)
    requires forall k | 0 <= k < |ts| :: CleanRow(ts[k]) == Some(ts[k])
    ensures CleanData(Reparsed(ts)) == ts
    decreases |ts|
  {
    if |ts| > 0 {
      var p := ts[..|ts| - 1];
      assert Reparsed(ts)[..|ts| - 1] == Reparsed(p);
      CleanDataOfFixedPoints(p);
      assert ts == p + [ts[|ts| - 1]];
    }
  }

  /** Cleaning an already cleaned sequence changes nothing. */
  lemma CleanDataIdempotent(rows: seq<Option<Transaction>>)
    ensures CleanData(Reparsed(CleanData(rows))) == CleanData(rows)
  {
    CleanDataFixedPoints(rows);
    CleanDataOfFixedPoints(CleanData(rows));
  }
}
