/**
 `createBytes` of qrcode.js (sections 7.5.2 and 7.6 of ISO/IEC 18004:2015): the buffer is cut into
 blocks, every block gets its error-correction bytes, and both are interleaved.
 */
module Blocks {
  import opened Types
  import opened Interleaving
  import opened ReedSolomon
  import opened Syndromes
  import opened Generators

  /** `QRRSBlock`. */
  datatype Block = Block(totalCount: nat, dataCount: nat)

  /** How many error-correction bytes a block gets. */
  function EcCount(b: Block): nat {
    Degree(b.totalCount - b.dataCount)
  }

  function Start(blocks: seq<Block>, n: nat): nat
    requires n <= |blocks|
  {
    if n == 0 then 0 else Start(blocks, n - 1) + blocks[n - 1].dataCount
  }

  /** `n` bytes of the buffer from `offset`; bytes past its end are zero. */
  function Cut(buffer: seq<bv8>, offset: nat, n: nat): (row: seq<bv8>)
    ensures |row| == n
    ensures forall i :: 0 <= i < n ==> row[i] == if offset + i < |buffer| then buffer[offset + i] else 0
  {
    seq(n, i requires 0 <= i < n => if offset + i < |buffer| then buffer[offset + i] else 0)
  }

  /** The data bytes of block `r`; blocks are cut from the buffer one after the other. */
  function DataRow(buffer: seq<bv8>, blocks: seq<Block>, r: nat): (row: seq<bv8>)
    requires r < |blocks|
    ensures |row| == blocks[r].dataCount
  {
    Cut(buffer, Start(blocks, r), blocks[r].dataCount)
  }

  ghost function EcRow(buffer: seq<bv8>, blocks: seq<Block>, r: nat): (row: seq<bv8>)
    requires r < |blocks|
    ensures |row| == EcCount(blocks[r])
  {
    EcOf(DataRow(buffer, blocks, r), EcCount(blocks[r]))
  }

  /** No block makes the encoder throw. */
  ghost predicate AllEncodable(buffer: seq<bv8>, blocks: seq<Block>) {
    forall r :: 0 <= r < |blocks| ==> Encodable(DataRow(buffer, blocks, r), EcCount(blocks[r]))
  }

  function DataRows(buffer: seq<bv8>, blocks: seq<Block>): (rows: seq<seq<bv8>>)
    ensures |rows| == |blocks|
    ensures forall r :: 0 <= r < |blocks| ==> rows[r] == DataRow(buffer, blocks, r)
  {
    seq(|blocks|, r requires 0 <= r < |blocks| => DataRow(buffer, blocks, r))
  }

  ghost function EcRows(buffer: seq<bv8>, blocks: seq<Block>): (rows: seq<seq<bv8>>)
    ensures |rows| == |blocks|
    ensures forall r :: 0 <= r < |blocks| ==> rows[r] == EcRow(buffer, blocks, r)
  {
    seq(|blocks|, r requires 0 <= r < |blocks| => EcRow(buffer, blocks, r))
  }

  ghost function Codewords(buffer: seq<bv8>, blocks: seq<Block>): seq<bv8> {
    Interleaved(DataRows(buffer, blocks)) + Interleaved(EcRows(buffer, blocks))
  }

  lemma LongestGrows(rows: seq<seq<bv8>>, row: seq<bv8>)
    ensures Longest(Lens(rows + [row])) == if Longest(Lens(rows)) < |row| then |row| else Longest(Lens(rows))
    ensures Total(Lens(rows + [row])) == Total(Lens(rows)) + |row|
  {
    var lens := Lens(rows + [row]);
    assert lens == Lens(rows) + [|row|];
    assert lens[..|lens| - 1] == Lens(rows);
  }

  ghost predicate RowsUpTo(buffer: seq<bv8>, blocks: seq<Block>, dc: seq<seq<bv8>>, ec: seq<seq<bv8>>, r: nat) {
    && |dc| == r == |ec| <= |blocks|
    && (forall q :: 0 <= q < r ==> dc[q] == DataRow(buffer, blocks, q) && ec[q] == EcRow(buffer, blocks, q))
  }

  lemma NoRows(buffer: seq<bv8>, blocks: seq<Block>)
    ensures RowsUpTo(buffer, blocks, [], [], 0) && Longest(Lens([])) == 0 && Total(Lens([])) == 0
  {
  }

  lemma NextRows(buffer: seq<bv8>, blocks: seq<Block>, dc: seq<seq<bv8>>, ec: seq<seq<bv8>>, r: nat)
    requires r < |blocks| && RowsUpTo(buffer, blocks, dc, ec, r)
    ensures RowsUpTo(buffer, blocks, dc + [DataRow(buffer, blocks, r)], ec + [EcRow(buffer, blocks, r)], r + 1)
  {
    hide DataRow, EcRow;
  }

  lemma AllRows(buffer: seq<bv8>, blocks: seq<Block>, dc: seq<seq<bv8>>, ec: seq<seq<bv8>>)
    requires RowsUpTo(buffer, blocks, dc, ec, |blocks|)
    ensures dc == DataRows(buffer, blocks) && ec == EcRows(buffer, blocks)
  {
    hide DataRow, EcRow, DataRows, EcRows;
  }

  lemma EncodableIff(buffer: seq<bv8>, blocks: seq<Block>)
    ensures AllEncodable(buffer, blocks) <==> forall r :: 0 <= r < |blocks| ==>
              || blocks[r].totalCount - blocks[r].dataCount <= 254
              || (blocks[r].totalCount - blocks[r].dataCount == 255 && AllZero(DataRow(buffer, blocks, r)))
  {
    hide DataRow, AllZero;
  }

  datatype Rows = Rows(dc: seq<seq<bv8>>, ec: seq<seq<bv8>>, maxDc: nat, maxEc: nat)

  /** `createBytes`: it throws exactly when some block cannot be encoded. A JavaScript array grows when it
      is written past its end. */
  method CreateBytes(exp: seq<bv8>, log: seq<nat>, buffer: seq<bv8>, blocks: seq<Block>)
      returns (out: Option<seq<bv8>>)
    requires Tables(exp, log)
    ensures out.Some? <==> forall r :: 0 <= r < |blocks| ==>
                             || blocks[r].totalCount - blocks[r].dataCount <= 254
                             || (blocks[r].totalCount - blocks[r].dataCount == 255 &&
                                  AllZero(DataRow(buffer, blocks, r)))
    ensures out.Some? ==> out.value == Codewords(buffer, blocks)
  {
    hide Tables, Longest, Lens, Total, Interleaved, DataRows, EcRows, DataRow, EcRow, AllEncodable, AllZero;
    EncodableIff(buffer, blocks);
    var computed := ComputeRows(exp, log, buffer, blocks);
    if computed == None {
      return None;
    }
    var rows := computed.value;
    var total := SumTotals(blocks);
    TotalsFit(buffer, blocks);
    InterleavedLength(rows.dc);
    InterleavedLength(rows.ec);
    var data := new bv8[Total(Lens(rows.dc)) + Total(Lens(rows.ec))];
    assert total <= data.Length;
    var middle := InterleaveInto(rows.dc, rows.maxDc, data, 0);
    ghost var first := data[..];
    var end := InterleaveInto(rows.ec, rows.maxEc, data, middle);
    var all := data[..];
    assert all[..middle] == first[..middle] == Interleaved(rows.dc);
    assert all == all[..middle] + all[middle..end];
    out := Some(all);
  }

  /** The first loop: the rows of every block and the longest of each kind. */
  method ComputeRows(exp: seq<bv8>, log: seq<nat>, buffer: seq<bv8>, blocks: seq<Block>) returns (r: Option<Rows>)
    requires Tables(exp, log)
    ensures r.Some? <==> AllEncodable(buffer, blocks)
    ensures r.Some? ==> r.value.dc == DataRows(buffer, blocks) && r.value.ec == EcRows(buffer, blocks)
    ensures r.Some? ==> r.value.maxDc == Longest(Lens(r.value.dc)) && r.value.maxEc == Longest(Lens(r.value.ec))
  {
    hide Tables, EcOf, Cut, DataRows, EcRows, DataRow, EcRow, Longest, Lens, Total, RowsUpTo, Encodable;
    NoRows(buffer, blocks);
    var dc, ec, maxDc, maxEc := [], [], 0, 0;
    var offset, n := 0, 0;
    while n < |blocks|
      invariant 0 <= n <= |blocks| && offset == Start(blocks, n)
      invariant RowsUpTo(buffer, blocks, dc, ec, n)
      invariant maxDc == Longest(Lens(dc)) && maxEc == Longest(Lens(ec))
      invariant forall q :: 0 <= q < n ==> Encodable(DataRow(buffer, blocks, q), EcCount(blocks[q]))
    {
      var row, code := ComputeRow(exp, log, buffer, blocks, n, offset);
      if code == None {
        return None;
      }
      var dcCount := blocks[n].dataCount;
      var ecCount := blocks[n].totalCount - dcCount;
      LongestGrows(dc, row);
      LongestGrows(ec, code.value);
      maxDc := if maxDc < dcCount then dcCount else maxDc;
      maxEc := if maxEc < ecCount then ecCount else maxEc;
      NextRows(buffer, blocks, dc, ec, n);
      dc, ec, offset, n := dc + [row], ec + [code.value], offset + dcCount, n + 1;
    }
    AllRows(buffer, blocks, dc, ec);
    r := Some(Rows(dc, ec, maxDc, maxEc));
  }

  /** The rows of one block. */
  method ComputeRow(exp: seq<bv8>, log: seq<nat>, buffer: seq<bv8>, blocks: seq<Block>, n: nat, offset: nat)
      returns (row: seq<bv8>, code: Option<seq<bv8>>)
    requires Tables(exp, log) && n < |blocks| && offset == Start(blocks, n)
    ensures row == DataRow(buffer, blocks, n)
    ensures code.Some? <==> Encodable(row, EcCount(blocks[n]))
    ensures code.Some? ==> code.value == EcRow(buffer, blocks, n)
  {
    hide Tables, EcOf, Cut, Encodable;
    var ecCount := blocks[n].totalCount - blocks[n].dataCount;
    row := CopyRow(buffer, offset, blocks[n].dataCount);
    code := EncodeBlock(exp, log, row, ecCount);
    EncodableIs(row, ecCount);
  }

  function TotalCounts(blocks: seq<Block>, n: nat): nat
    requires n <= |blocks|
  {
    if n == 0 then 0 else TotalCounts(blocks, n - 1) + blocks[n - 1].totalCount
  }

  method SumTotals(blocks: seq<Block>) returns (total: nat)
    ensures total == TotalCounts(blocks, |blocks|)
  {
    total := 0;
    for i := 0 to |blocks|
      invariant total == TotalCounts(blocks, i)
    {
      total := total + blocks[i].totalCount;
    }
  }

  /** Every cell of the array the source allocates is written; it grows only for a block with more data
      than its total count. */
  lemma TotalsFit(buffer: seq<bv8>, blocks: seq<Block>)
    ensures TotalCounts(blocks, |blocks|) <= Total(Lens(DataRows(buffer, blocks))) + Total(Lens(EcRows(buffer, blocks)))
    ensures (forall r :: 0 <= r < |blocks| ==> blocks[r].dataCount <= blocks[r].totalCount) ==>
              TotalCounts(blocks, |blocks|) ==
                  Total(Lens(DataRows(buffer, blocks))) + Total(Lens(EcRows(buffer, blocks)))
  {
    hide Total, TotalCounts, EcCount, DataRow, EcRow, DataRows, EcRows, Lens;
    var dc, ec := Lens(DataRows(buffer, blocks)), Lens(EcRows(buffer, blocks));
    TotalsFitUpTo(blocks, dc, ec, |blocks|);
    assert dc[..|blocks|] == dc && ec[..|blocks|] == ec;
  }

  lemma {:induction false} TotalsFitUpTo(blocks: seq<Block>, dc: seq<nat>, ec: seq<nat>, n: nat)
    requires n <= |blocks| == |dc| == |ec|
    requires forall r :: 0 <= r < |blocks| ==> dc[r] == blocks[r].dataCount && ec[r] == EcCount(blocks[r])
    ensures TotalCounts(blocks, n) <= Total(dc[..n]) + Total(ec[..n])
    ensures (forall r :: 0 <= r < n ==> blocks[r].dataCount <= blocks[r].totalCount) ==>
              TotalCounts(blocks, n) == Total(dc[..n]) + Total(ec[..n])
  {
    if n > 0 {
      TotalsFitUpTo(blocks, dc, ec, n - 1);
      assert dc[..n][..n - 1] == dc[..n - 1] && ec[..n][..n - 1] == ec[..n - 1];
    }
  }

  method CopyRow(buffer: seq<bv8>, offset: nat, n: nat) returns (row: seq<bv8>)
    ensures row == Cut(buffer, offset, n)
  {
    row := [];
    while |row| < n
      invariant |row| <= n && row == Cut(buffer, offset, n)[..|row|]
    {
      row := row + [if |row| + offset < |buffer| then buffer[|row| + offset] else 0];
    }
  }

  // ---------- what a reader gets back ----------

  function Join(rows: seq<seq<bv8>>): seq<bv8> {
    if rows == [] then [] else Join(rows[..|rows| - 1]) + rows[|rows| - 1]
  }

  lemma {:induction false} DataRowsJoin(buffer: seq<bv8>, blocks: seq<Block>, n: nat)
    requires n <= |blocks|
    ensures Join(DataRows(buffer, blocks)[..n]) == Cut(buffer, 0, Start(blocks, n))
  {
    hide DataRows, Cut;
    if n > 0 {
      DataRowsJoin(buffer, blocks, n - 1);
      var rows := DataRows(buffer, blocks);
      assert rows[..n][..n - 1] == rows[..n - 1];
    }
  }

  /** A reader of the codewords who knows the block sizes gets every data block, every error-correction
      block, and the buffer itself back. */
  lemma CodewordsAreReadable(buffer: seq<bv8>, blocks: seq<Block>)
    ensures var dc, ec, out := DataRows(buffer, blocks), EcRows(buffer, blocks), Codewords(buffer, blocks);
            var k := Total(Lens(dc));
            && k <= |out| && |out| == k + Total(Lens(ec))
            && Deinterleaved(Lens(dc), out[..k]) == dc
            && Deinterleaved(Lens(ec), out[k..]) == ec
            && Join(Deinterleaved(Lens(dc), out[..k])) == Cut(buffer, 0, Start(blocks, |blocks|))
  {
    hide DataRows, EcRows, Cut, Deinterleaved, Interleaved, Lens, Total;
    var dc, ec, out := DataRows(buffer, blocks), EcRows(buffer, blocks), Codewords(buffer, blocks);
    InterleavedLength(dc);
    InterleavedLength(ec);
    DeinterleavedInterleaved(dc);
    DeinterleavedInterleaved(ec);
    assert out[..Total(Lens(dc))] == Interleaved(dc);
    assert out[Total(Lens(dc))..] == Interleaved(ec);
    DataRowsJoin(buffer, blocks, |blocks|);
    assert dc[..|blocks|] == dc;
  }

  /** Every block the reader takes out of the codewords passes the decoder's test: all its syndromes are
      zero. */
  lemma ReadBlocksVanish(buffer: seq<bv8>, blocks: seq<Block>, r: nat, j: nat)
    requires AllEncodable(buffer, blocks) && r < |blocks| && j < EcCount(blocks[r])
    ensures var dc, ec, out := DataRows(buffer, blocks), EcRows(buffer, blocks), Codewords(buffer, blocks);
            var k := Total(Lens(dc));
            && k <= |out|
            && Eval(Deinterleaved(Lens(dc), out[..k])[r] + Deinterleaved(Lens(ec), out[k..])[r], j) == 0
  {
    hide DataRows, EcRows, Deinterleaved, Codewords, Lens, Total, Eval, EcOf;
    CodewordsAreReadable(buffer, blocks);
    SyndromesVanish(DataRow(buffer, blocks, r), EcCount(blocks[r]), j);
  }
}
