/** How the senders cut a file into pieces. Two loops of the source do it:
    the TCP senders loop until every byte is out (`Chunks`), the UDP sender
    loops a fixed number of times and sends whatever is left, possibly
    nothing, on each pass (`Packets`). */
module Chunking {
  import opened Wire

  /** Consecutive pieces of `size` bytes; the last one holds the remainder.
      An empty file has no pieces. */
  function Chunks(c: seq<byte>, size: nat): seq<seq<byte>>
    requires size > 0
    decreases |c|
  {
    if |c| == 0 then []
    else if |c| <= size then [c]
    else [c[..size]] + Chunks(c[size..], size)
  }

  /** The first piece, unfolded. */
  lemma ChunksUnfold(c: seq<byte>, size: nat)
    requires size > 0 && |c| > 0
    ensures Chunks(c, size) == [c[..Min(size, |c|)]] + Chunks(c[Min(size, |c|)..], size)
  {
    if |c| <= size {
      assert c[..|c|] == c && c[|c|..] == [];
    }
  }

  /** The piece that starts at `start`, unfolded in place. */
  lemma ChunkAt(c: seq<byte>, size: nat, start: nat)
    requires size > 0 && start < |c|
    ensures var end := start + Min(size, |c| - start);
      Chunks(c[start..], size) == [c[start..end]] + Chunks(c[end..], size)
  {
    var end := start + Min(size, |c| - start);
    ChunksUnfold(c[start..], size);
    assert c[start..][..Min(size, |c| - start)] == c[start..end];
    assert c[start..][Min(size, |c| - start)..] == c[end..];
  }

  /** The pieces put back together are the file. */
  lemma {:induction false} ChunksFlatten(c: seq<byte>, size: nat)
    requires size > 0
    ensures Flatten(Chunks(c, size)) == c
    decreases |c|
  {
    if |c| > size {
      ChunksFlatten(c[size..], size);
      assert c[..size] + c[size..] == c;
    }
  }

  /** No piece is empty or longer than `size`, and every piece but the last is
      exactly `size` bytes long. */
  lemma {:induction false} ChunksShape(c: seq<byte>, size: nat)
    requires size > 0
    ensures forall i :: 0 <= i < |Chunks(c, size)| ==> 0 < |Chunks(c, size)[i]| <= size
    ensures forall i :: 0 <= i < |Chunks(c, size)| - 1 ==> |Chunks(c, size)[i]| == size
    decreases |c|
  {
    if |c| > size {
      ChunksShape(c[size..], size);
      var r := Chunks(c, size);
      var tail := Chunks(c[size..], size);
      assert r == [c[..size]] + tail;
      forall i | 0 <= i < |r|
        ensures 0 < |r[i]| <= size && (i < |r| - 1 ==> |r[i]| == size)
      {
        if i > 0 {
          assert r[i] == tail[i - 1];
          assert 0 < |tail[i - 1]| <= size;
          assert i - 1 < |tail| - 1 ==> |tail[i - 1]| == size;
        }
      }
    }
  }

  /** There are ceil(|c| / size) pieces: the fewest that can hold the file. */
  lemma {:induction false} ChunksCount(c: seq<byte>, size: nat)
    requires size > 0
    ensures (|Chunks(c, size)| - 1) * size < |c| <= |Chunks(c, size)| * size
    decreases |c|
  {
    if |c| > size {
      var k := |Chunks(c[size..], size)|;
      ChunksCount(c[size..], size);
      assert |Chunks(c, size)| == k + 1;
      assert (k + 1) * size == k * size + size;
      assert (k - 1) * size + size == k * size;
    }
  }

  /** What a loop of `count` passes reads from `c` when each pass takes `size`
      bytes if at least that many remain and everything that remains, possibly
      nothing, otherwise. */
  function Packets(c: seq<byte>, size: nat, count: int): seq<seq<byte>>
    requires size > 0
    decreases if count < 0 then 0 else count
  {
    if count <= 0 then []
    else if |c| >= size then [c[..size]] + Packets(c[size..], size, count - 1)
    else [c] + Packets([], size, count - 1)
  }

  /** One pass, unfolded. */
  lemma PacketsUnfold(c: seq<byte>, size: nat, count: int)
    requires size > 0 && count > 0
    ensures Packets(c, size, count) == [c[..Min(size, |c|)]] + Packets(c[Min(size, |c|)..], size, count - 1)
  {
    if |c| < size {
      assert c[..|c|] == c && c[|c|..] == [];
    }
  }

  /** One piece per pass, none longer than `size`. */
  lemma {:induction false} PacketsShape(c: seq<byte>, size: nat, count: int)
    requires size > 0
    ensures |Packets(c, size, count)| == if count < 0 then 0 else count
    ensures forall i :: 0 <= i < |Packets(c, size, count)| ==> |Packets(c, size, count)[i]| <= size
    decreases if count < 0 then 0 else count
  {
    if count > 0 {
      var rest := if |c| >= size then c[size..] else [];
      PacketsShape(rest, size, count - 1);
      var r := Packets(c, size, count);
      forall i | 0 <= i < |r| ensures |r[i]| <= size {
        if i > 0 { assert r[i] == Packets(rest, size, count - 1)[i - 1]; }
      }
    }
  }

  /** The progress a sender prints once `curr` of the `n` bytes of a file are
      out: `curr * 100 / n`, in whole percent. It is 100 exactly when the
      whole file is out. */
  function Percent(curr: nat, n: nat): (p: nat)
    requires 0 < n && curr <= n
    ensures p <= 100
    ensures p == 100 <==> curr == n
  {
    PercentBounds(curr, n);
    curr * 100 / n
  }

  /** Short of the whole file the percentage stays below 100, and the
      whole file is 100 percent. */
  lemma PercentBounds(curr: nat, n: nat)
    requires 0 < n && curr <= n
    ensures curr * 100 / n <= 100
    ensures curr * 100 / n == 100 <==> curr == n
  {
    var p := curr * 100 / n;
    if curr < n {
      assert p * n <= curr * 100 < n * 100;
    } else {
      assert curr * 100 == 100 * n;
    }
  }

  /** Printed progress never goes down. */
  lemma PercentMonotone(a: nat, b: nat, n: nat)
    requires 0 < n && a <= b <= n
    ensures Percent(a, n) <= Percent(b, n)
  {
    var p, q := a * 100 / n, b * 100 / n;
    assert p * n <= a * 100 <= b * 100 < (q + 1) * n;
    MulMonotone(q + 1, p, n);
  }

  /** Multiplying by the same natural number keeps the order. */
  lemma {:induction false} MulMonotone(x: int, y: int, n: nat)
    ensures x <= y ==> x * n <= y * n
    decreases n
  {
    if n > 0 {
      MulMonotone(x, y, n - 1);
      assert x * n == x * (n - 1) + x && y * n == y * (n - 1) + y;
    }
  }

  /** A run of progress reports that never decreases and reaches 100 at
      most at its end. */
  predicate Reports(progress: seq<nat>)
  {
    && (forall i, j :: 0 <= i <= j < |progress| ==> progress[i] <= progress[j])
    && (forall i :: 0 <= i < |progress| - 1 ==> progress[i] < 100)
  }

  /** A report no smaller than the last, after a last report under 100,
      keeps the run in order. */
  lemma ReportsAppend(progress: seq<nat>, p: nat)
    requires Reports(progress)
    requires |progress| > 0 ==> progress[|progress| - 1] <= p && progress[|progress| - 1] < 100
    ensures Reports(progress + [p])
  {
  }
}
