/**
 Interleaving of error-correction blocks in `createBytes`: rows are written column by column, and a
 reader who knows the row lengths gets every row back.
 */
module Interleaving {

  /** Column `i` of the first `r` rows; rows too short for it are skipped. */
  function Column(rows: seq<seq<bv8>>, i: nat, r: nat): seq<bv8>
    requires r <= |rows|
  {
    if r == 0 then []
    else Column(rows, i, r - 1) + (if i < |rows[r - 1]| then [rows[r - 1][i]] else [])
  }

  /** The first `k` columns. */
  function Columns(rows: seq<seq<bv8>>, k: nat): seq<bv8> {
    if k == 0 then [] else Columns(rows, k - 1) + Column(rows, k - 1, |rows|)
  }

  function Longest(lens: seq<nat>): (m: nat)
    ensures forall r :: 0 <= r < |lens| ==> lens[r] <= m
  {
    if lens == [] then 0
    else
      var m, n := Longest(lens[..|lens| - 1]), lens[|lens| - 1];
      if m < n then n else m
  }

  function Lens(rows: seq<seq<bv8>>): (lens: seq<nat>)
    ensures |lens| == |rows| && forall r :: 0 <= r < |rows| ==> lens[r] == |rows[r]|
  {
    seq(|rows|, r requires 0 <= r < |rows| => |rows[r]|)
  }

  function Interleaved(rows: seq<seq<bv8>>): seq<bv8> {
    Columns(rows, Longest(Lens(rows)))
  }

  // ---------- the reader's side: only the lengths are known ----------

  /** How many of the first `r` rows reach column `i`. */
  function Rank(lens: seq<nat>, i: nat, r: nat): nat
    requires r <= |lens|
  {
    if r == 0 then 0 else Rank(lens, i, r - 1) + (if i < lens[r - 1] then 1 else 0)
  }

  /** How many cells lie in the first `k` columns. */
  function Before(lens: seq<nat>, k: nat): nat {
    if k == 0 then 0 else Before(lens, k - 1) + Rank(lens, k - 1, |lens|)
  }

  function Offset(lens: seq<nat>, r: nat, i: nat): nat
    requires r < |lens|
  {
    Before(lens, i) + Rank(lens, i, r)
  }

  /** The first `r` lengths, each cut at `k`, added up. */
  function Area(lens: seq<nat>, k: nat, r: nat): nat
    requires r <= |lens|
  {
    if r == 0 then 0 else Area(lens, k, r - 1) + (if lens[r - 1] < k then lens[r - 1] else k)
  }

  function Total(lens: seq<nat>): nat {
    if lens == [] then 0 else Total(lens[..|lens| - 1]) + lens[|lens| - 1]
  }

  // ---------- lengths ----------

  lemma {:induction false} ColumnLength(rows: seq<seq<bv8>>, i: nat, r: nat)
    requires r <= |rows|
    ensures |Column(rows, i, r)| == Rank(Lens(rows), i, r)
  {
    if r > 0 {
      ColumnLength(rows, i, r - 1);
    }
  }

  lemma {:induction false} ColumnsLength(rows: seq<seq<bv8>>, k: nat)
    ensures |Columns(rows, k)| == Before(Lens(rows), k)
  {
    hide Column, Rank, Lens;
    if k > 0 {
      ColumnsLength(rows, k - 1);
      ColumnLength(rows, k - 1, |rows|);
    }
  }

  lemma {:induction false} AreaGrows(lens: seq<nat>, k: nat, r: nat)
    requires r <= |lens|
    ensures Area(lens, k + 1, r) == Area(lens, k, r) + Rank(lens, k, r)
  {
    if r > 0 {
      AreaGrows(lens, k, r - 1);
    }
  }

  lemma {:induction false} BeforeIsArea(lens: seq<nat>, k: nat)
    ensures Before(lens, k) == Area(lens, k, |lens|)
  {
    if k == 0 {
      NoArea(lens, |lens|);
    } else {
      BeforeIsArea(lens, k - 1);
      AreaGrows(lens, k - 1, |lens|);
    }
  }

  lemma {:induction false} NoArea(lens: seq<nat>, r: nat)
    requires r <= |lens|
    ensures Area(lens, 0, r) == 0
  {
    if r > 0 {
      NoArea(lens, r - 1);
    }
  }

  lemma {:induction false} WholeArea(lens: seq<nat>, k: nat, r: nat)
    requires r <= |lens| && forall q :: 0 <= q < |lens| ==> lens[q] <= k
    ensures Area(lens, k, r) == Total(lens[..r])
  {
    if r > 0 {
      WholeArea(lens, k, r - 1);
      assert lens[..r][..r - 1] == lens[..r - 1];
    }
  }

  /** Every cell of every row is written exactly once: the output has as many cells as all rows. */
  lemma InterleavedLength(rows: seq<seq<bv8>>)
    ensures |Interleaved(rows)| == Total(Lens(rows))
  {
    var lens := Lens(rows);
    var k := Longest(lens);
    ColumnsLength(rows, k);
    BeforeIsArea(lens, k);
    WholeArea(lens, k, |lens|);
    assert lens[..|lens|] == lens;
  }

  // ---------- contents ----------

  lemma {:induction false} ColumnAt(rows: seq<seq<bv8>>, i: nat, r: nat, n: nat)
    requires r < n <= |rows| && i < |rows[r]|
    ensures Rank(Lens(rows), i, r) < |Column(rows, i, n)|
    ensures Column(rows, i, n)[Rank(Lens(rows), i, r)] == rows[r][i]
  {
    if r == n - 1 {
      ColumnLength(rows, i, r);
    } else {
      ColumnAt(rows, i, r, n - 1);
    }
  }

  lemma {:induction false} ColumnsAt(rows: seq<seq<bv8>>, i: nat, r: nat, k: nat)
    requires r < |rows| && i < |rows[r]| && i < k
    ensures Offset(Lens(rows), r, i) < |Columns(rows, k)|
    ensures Columns(rows, k)[Offset(Lens(rows), r, i)] == rows[r][i]
  {
    hide Column, Rank, Lens;
    if i == k - 1 {
      ColumnsLength(rows, i);
      ColumnAt(rows, i, r, |rows|);
    } else {
      ColumnsAt(rows, i, r, k - 1);
    }
  }

  /** The rows a reader takes out of an interleaved sequence, knowing the lengths only. */
  function Deinterleaved(lens: seq<nat>, data: seq<bv8>): (rows: seq<seq<bv8>>)
    ensures |rows| == |lens| && forall r :: 0 <= r < |lens| ==> |rows[r]| == lens[r]
  {
    seq(|lens|, r requires 0 <= r < |lens| => Row(lens, data, r))
  }

  function Row(lens: seq<nat>, data: seq<bv8>, r: nat): (row: seq<bv8>)
    requires r < |lens|
    ensures |row| == lens[r]
  {
    seq(lens[r], i requires 0 <= i < lens[r] => var o := Offset(lens, r, i); if o < |data| then data[o] else 0)
  }

  /** Interleaving loses nothing: the reader gets back the rows that were written. */
  lemma DeinterleavedInterleaved(rows: seq<seq<bv8>>)
    ensures Deinterleaved(Lens(rows), Interleaved(rows)) == rows
  {
    var lens, data := Lens(rows), Interleaved(rows);
    forall r | 0 <= r < |rows|
      ensures Row(lens, data, r) == rows[r]
    {
      forall i | 0 <= i < |rows[r]|
        ensures Row(lens, data, r)[i] == rows[r][i]
      {
        ColumnsAt(rows, i, r, Longest(lens));
      }
    }
  }

  // ---------- the loops ----------

  lemma {:induction false} ColumnPrefix(rows: seq<seq<bv8>>, i: nat, r: nat, n: nat)
    requires r <= n <= |rows|
    ensures |Column(rows, i, r)| <= |Column(rows, i, n)|
  {
    if r < n {
      ColumnPrefix(rows, i, r, n - 1);
    }
  }

  lemma {:induction false} ColumnsPrefix(rows: seq<seq<bv8>>, k: nat, m: nat)
    requires k <= m
    ensures |Columns(rows, k)| <= |Columns(rows, m)|
  {
    if k < m {
      ColumnsPrefix(rows, k, m - 1);
    }
  }

  /** There is room for the next cell, and what it continues. */
  lemma NextCell(rows: seq<seq<bv8>>, i: nat, r: nat)
    requires i < Longest(Lens(rows)) && r < |rows| && i < |rows[r]|
    ensures Column(rows, i, r + 1) == Column(rows, i, r) + [rows[r][i]]
    ensures |Columns(rows, i) + Column(rows, i, r)| < |Interleaved(rows)|
  {
    hide Longest, Lens, Columns;
    ColumnPrefix(rows, i, r + 1, |rows|);
    ColumnFits(rows, i);
  }

  lemma ColumnFits(rows: seq<seq<bv8>>, i: nat)
    requires i < Longest(Lens(rows))
    ensures |Columns(rows, i) + Column(rows, i, |rows|)| <= |Interleaved(rows)|
  {
    hide Longest, Lens, Column;
    ColumnsPrefix(rows, i + 1, Longest(Lens(rows)));
  }

  /** One of the two writing loops of `createBytes`: `m` is the longest row. */
  method InterleaveInto(rows: seq<seq<bv8>>, m: nat, data: array<bv8>, start: nat) returns (index: nat)
    requires m == Longest(Lens(rows)) && start + |Interleaved(rows)| <= data.Length
    modifies data
    ensures index == start + |Interleaved(rows)|
    ensures data[start..index] == Interleaved(rows)
    ensures Kept(data[..], old(data[..]), start, index)
  {
    hide Longest, Lens, Column;
    index := start;
    var i := 0;
    while i < m
      invariant 0 <= i <= m && start <= index <= data.Length
      invariant data[start..index] == Columns(rows, i)
      invariant Kept(data[..], old(data[..]), start, index)
    {
      index := WriteColumn(rows, i, data, start, index);
      i := i + 1;
    }
  }

  /** Two buffers agree outside the range from `lo` to `hi`. */
  ghost predicate Kept(now: seq<bv8>, was: seq<bv8>, lo: nat, hi: nat) {
    |now| == |was| && forall j :: 0 <= j < |now| && !(lo <= j < hi) ==> now[j] == was[j]
  }

  /** The inner loop over the rows. */
  method WriteColumn(rows: seq<seq<bv8>>, i: nat, data: array<bv8>, start: nat, at: nat) returns (index: nat)
    requires i < Longest(Lens(rows)) && start <= at && start + |Interleaved(rows)| <= data.Length
    requires at - start == |Columns(rows, i)|
    modifies data
    ensures at <= index == at + |Column(rows, i, |rows|)| <= data.Length
    ensures data[at..index] == Column(rows, i, |rows|)
    ensures Kept(data[..], old(data[..]), at, index)
  {
    hide Longest, Lens, Columns, Interleaved;
    ColumnFits(rows, i);
    index := at;
    var r := 0;
    while r < |rows|
      invariant 0 <= r <= |rows| && at <= index <= data.Length
      invariant data[at..index] == Column(rows, i, r)
      invariant Kept(data[..], old(data[..]), at, index)
    {
      if i < |rows[r]| {
        NextCell(rows, i, r);
        data[index] := rows[r][i];
        index := index + 1;
      }
      r := r + 1;
    }
  }
}
