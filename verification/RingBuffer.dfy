/** The byte queue between the socket and the coroutine: a fixed array used modulo its
    length, which need not divide anything. */
module Ring {
  import opened Bytes

  // A span of the array: where it starts and how many bytes it covers.
  datatype Span = Span(start: nat, count: nat)

  // The array cell `k` places after a running index.
  function Cell(n: nat, index: nat, k: nat): (c: nat)
    requires n > 0
    ensures c < n
  {
    (index + k) % n
  }

  // Cells within one turn of each other are different cells.
  lemma CellsDiffer(n: nat, a: nat, i: nat, b: nat, j: nat)
    requires a + i < b + j < a + i + n
    ensures Cell(n, a, i) != Cell(n, b, j)
  {
    var c, d := a + i, b + j;
    if c % n == d % n {
      assert d - c == n * (d / n - c / n);
      MulSign(d / n - c / n, n);
    }
  }

  // The cell of an index that runs past the end of the array at most once.
  lemma CellOf(n: nat, index: nat, k: nat)
    requires k < n
    ensures var c := Cell(n, index, 0) + k; Cell(n, index, k) == if c < n then c else c - n
  {
    var q, r := index / n, index % n;
    assert index == q * n + r;
    if r + k < n {
      DivMod(index + k, q, r + k, n);
    } else {
      assert (q + 1) * n == q * n + n;
      DivMod(index + k, q + 1, r + k - n, n);
    }
  }

  lemma CellTurn(n: nat, index: nat)
    requires n > 0
    ensures Cell(n, index + n, 0) == Cell(n, index, 0)
  {
    DivMod(index + n, index / n + 1, index % n, n);
  }

  lemma CellShift(n: nat, a: nat, b: nat, k: nat)
    requires n > 0
    ensures Cell(n, a + b, k) == Cell(n, a, b + k)
  {
    assert (a + b) + k == a + (b + k);
  }

  class RingBuffer {
    ghost var contents: seq<byte>

    const data: array<byte>
    var read: nat     // m_read and m_written only grow
    var written: nat

    ghost predicate Valid()
      reads this, data
    {
      && 0 < data.Length
      && read <= written <= read + data.Length
      && |contents| == written - read
      && forall i :: 0 <= i < |contents| ==> contents[i] == data[Cell(data.Length, read, i)]
    }

    constructor (n: nat)
      requires n > 0
      ensures Valid() && fresh(data) && data.Length == n && contents == []
    {
      data := new byte[n];
      read, written, contents := 0, 0, [];
    }

    function Readable(): (n: nat)
      requires Valid()
      reads this, data
      ensures n == |contents|
    {
      written - read
    }

    function Writable(): (n: nat)
      requires Valid()
      reads this, data
      ensures n == data.Length - |contents|
    {
      data.Length - Readable()
    }

    // Two spans that together cover `total` cells from the cell of `index` on.
    function FrontAt(index: nat, total: nat): (s: Span)
      requires 0 < data.Length && total <= data.Length
      ensures s.start + s.count <= data.Length && s.count <= total
    {
      var start := Cell(data.Length, index, 0);
      Span(start, if total > data.Length - start then data.Length - start else total)
    }

    function BackAt(index: nat, total: nat): (s: Span)
      requires 0 < data.Length && total <= data.Length
      ensures s.start + s.count <= FrontAt(index, total).start || s.count == 0
      ensures s.count + FrontAt(index, total).count == total
    {
      Span(0, total - FrontAt(index, total).count)
    }

    // The cells of the two spans, one after the other, are those of the running index.
    lemma SpanCells(index: nat, total: nat, k: nat)
      requires 0 < data.Length && total <= data.Length && k < total
      ensures var f := FrontAt(index, total);
              Cell(data.Length, index, k) == if k < f.count then f.start + k else k - f.count
    {
      CellOf(data.Length, index, k);
    }

    ghost function Bytes(s: Span): seq<byte>
      requires s.start + s.count <= data.Length
      reads data
    {
      data[s.start..s.start + s.count]
    }

    function ReadFront(): (s: Span)
      requires Valid()
      reads this, data
    {
      FrontAt(read, Readable())
    }

    function ReadBack(): (s: Span)
      requires Valid()
      reads this, data
    {
      BackAt(read, Readable())
    }

    function WriteFront(): (s: Span)
      requires Valid()
      reads this, data
    {
      FrontAt(written, Writable())
    }

    function WriteBack(): (s: Span)
      requires Valid()
      reads this, data
    {
      BackAt(written, Writable())
    }

    // What can be read, as two spans, is the queue.
    lemma ReadSpansAreContents()
      requires Valid()
      ensures Bytes(ReadFront()) + Bytes(ReadBack()) == contents
    {
      hide Cell;
      var n := Readable();
      assert |Bytes(ReadFront())| + |Bytes(ReadBack())| == n;
      forall k | 0 <= k < n
        ensures (Bytes(ReadFront()) + Bytes(ReadBack()))[k] == contents[k]
      {
        SpanCells(read, Readable(), k);
      }
    }

    ghost predicate InSpan(c: int, s: Span) { s.start <= c < s.start + s.count }

    // The read and the write spans are pairwise disjoint and cover every cell.
    lemma WindowsPartition(c: nat)
      requires Valid() && c < data.Length
      ensures var r := InSpan(c, ReadFront()) || InSpan(c, ReadBack());
              var w := InSpan(c, WriteFront()) || InSpan(c, WriteBack());
              && r != w
              && !(InSpan(c, ReadFront()) && InSpan(c, ReadBack()))
              && !(InSpan(c, WriteFront()) && InSpan(c, WriteBack()))
    {
      hide Cell;
      var n := data.Length;
      CellShift(n, read, |contents|, 0);
      if |contents| < n {
        CellOf(n, read, |contents|);
      } else {
        assert written == read + n;
        CellTurn(n, read);
      }
    }

    method Front() returns (b: Result<byte>)
      requires Valid()
      ensures b == if contents == [] then Err(AssertFailed) else Ok(contents[0])
    {
      if Readable() < 1 {
        return Err(AssertFailed);
      }
      assert contents[0] == data[Cell(data.Length, read, 0)];
      b := Ok(data[Cell(data.Length, read, 0)]);
    }

    method Erase(n: nat) returns (ok: bool)
      requires Valid()
      modifies this
      ensures Valid()
      ensures ok == (n <= |old(contents)|)
      ensures contents == if ok then old(contents)[n..] else old(contents)
    {
      ok := n <= Readable();
      if ok {
        read := read + n;
        contents := contents[n..];
        forall i | 0 <= i < |contents|
          ensures contents[i] == data[Cell(data.Length, read, i)]
        {
          CellShift(data.Length, old(read), n, i);
        }
      }
    }

    // The cells a write of `n` bytes lands in, in order.
    ghost function Landed(n: nat): (s: seq<byte>)
      requires 0 < data.Length
      reads this, data
      ensures |s| == n
      ensures forall i :: 0 <= i < n ==> s[i] == data[Cell(data.Length, written, i)]
    {
      seq(n, i requires 0 <= i && 0 < data.Length reads this, data => data[Cell(data.Length, written, i)])
    }

    method MarkWrite(n: nat) returns (ok: bool)
      requires Valid()
      modifies this
      ensures Valid()
      ensures ok == (n <= old(Writable()))
      ensures contents == if ok then old(contents) + old(Landed(n)) else old(contents)
    {
      ok := n <= Writable();
      if ok {
        forall i | 0 <= i < n
          ensures Landed(n)[i] == data[Cell(data.Length, read, |contents| + i)]
        {
          CellShift(data.Length, read, |contents|, i);
        }
        contents := contents + Landed(n);
        written := written + n;
      }
    }
  }

  // A socket read scatters its bytes over the two spans it was given, the front one first.
  method Scatter(ring: RingBuffer, front: Span, back: Span, bytes: seq<byte>)
    requires ring.Valid() && front == ring.WriteFront() && back == ring.WriteBack()
    requires |bytes| <= front.count + back.count
    modifies ring.data
    ensures ring.Valid() && ring.Landed(|bytes|) == bytes
  {
    hide Cell;
    for k := 0 to |bytes|
      invariant ring.Valid() && ring.Landed(k) == bytes[..k]
    {
      ring.SpanCells(ring.written, ring.Writable(), k);
      var c := if k < front.count then front.start + k else back.start + (k - front.count);
      assert c == Cell(ring.data.Length, ring.written, k);
      OtherCells(ring, k);
      ring.data[c] := bytes[k];
    }
  }

  // The next cell to be written holds neither a queued byte nor one of the k just written.
  lemma OtherCells(ring: RingBuffer, k: nat)
    requires ring.Valid() && k < ring.Writable()
    ensures var n := ring.data.Length;
            var c := Cell(n, ring.written, k);
            && (forall i :: 0 <= i < |ring.contents| ==> Cell(n, ring.read, i) != c)
            && (forall i :: 0 <= i < k ==> Cell(n, ring.written, i) != c)
  {
    hide Cell;
    var n := ring.data.Length;
    forall i | 0 <= i < |ring.contents| ensures Cell(n, ring.read, i) != Cell(n, ring.written, k) {
      CellsDiffer(n, ring.read, i, ring.written, k);
    }
    forall i | 0 <= i < k ensures Cell(n, ring.written, i) != Cell(n, ring.written, k) {
      CellsDiffer(n, ring.written, i, ring.written, k);
    }
  }
}
