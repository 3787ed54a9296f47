/**
 * How the downloader cuts a file of `totalSize` bytes into `chunk` inclusive
 * byte ranges, and the `Range: bytes=first-last` header it sends for each
 * (the int-range form of section 14.1.2 of RFC 9110).
 * pkg/downloader/downloader.go and cmd/downloader/downloader.go compute the
 * same ranges.
 */
module Partition {
  import opened Wrappers
  import opened Text

  /** An inclusive byte range `[start, end]`; it is empty when `end == start - 1`. */
  datatype ByteRange = ByteRange(start: int, end: int)
  {
    function Length(): int { end - start + 1 }
  }

  /** Go's `/` on integers: the quotient truncated toward zero. */
  function GoQuo(a: int, b: int): (q: int)
    requires b >= 1
    ensures a >= 0 ==> q == a / b
    ensures a < 0 ==> q == -((-a) / b)
  {
    if a >= 0 then a / b else -((-a) / b)
  }

  /** The range of chunk `i`: every chunk is `totalSize / chunk` wide, the last one ends at `totalSize - 1`. */
  function ChunkRange(totalSize: int, chunk: int, i: int): ByteRange
    requires chunk >= 1 && 0 <= i < chunk
  {
    var chunkSize := GoQuo(totalSize, chunk);
    var start := i * chunkSize;
    ByteRange(start, if i == chunk - 1 then totalSize - 1 else start + chunkSize - 1)
  }

  /** All the ranges, in chunk order. */
  function Ranges(totalSize: int, chunk: int): (rs: seq<ByteRange>)
    requires chunk >= 1
    ensures |rs| == chunk
  {
    seq(chunk, i requires 0 <= i < chunk => ChunkRange(totalSize, chunk, i))
  }

  /** The ranges are laid end to end: each starts right after the previous one ends. */
  ghost predicate Contiguous(rs: seq<ByteRange>)
  {
    forall i :: 0 <= i < |rs| - 1 ==> rs[i + 1].start == rs[i].end + 1
  }

  /** The total of the range lengths. */
  function SumLengths(rs: seq<ByteRange>): int
  {
    if rs == [] then 0 else SumLengths(rs[..|rs| - 1]) + rs[|rs| - 1].Length()
  }

  /** Chunk 0 starts at byte 0, each chunk starts right after the previous one, the last ends at `totalSize - 1`. */
  lemma {:induction false} RangesTile(totalSize: int, chunk: int)
    requires chunk >= 1
    ensures Ranges(totalSize, chunk)[0].start == 0
    ensures Contiguous(Ranges(totalSize, chunk))
    ensures Ranges(totalSize, chunk)[chunk - 1].end == totalSize - 1
  {
    var rs := Ranges(totalSize, chunk);
    var q := GoQuo(totalSize, chunk);
    forall i | 0 <= i < chunk - 1
      ensures rs[i + 1].start == rs[i].end + 1
    {
      assert rs[i].end == i * q + q - 1;
      assert (i + 1) * q == i * q + q;
    }
  }

  /** Contiguous ranges from `a` to `b` have lengths summing to `b - a + 1`. */
  lemma {:induction false} ContiguousSum(rs: seq<ByteRange>)
    requires |rs| >= 1
    requires Contiguous(rs)
    ensures SumLengths(rs) == rs[|rs| - 1].end - rs[0].start + 1
  {
    if |rs| > 1 {
      var init := rs[..|rs| - 1];
      assert Contiguous(init) by {
        forall i | 0 <= i < |init| - 1 ensures init[i + 1].start == init[i].end + 1 {
          assert init[i] == rs[i] && init[i + 1] == rs[i + 1];
        }
      }
      ContiguousSum(init);
    }
  }

  /** The lengths `end - start + 1` of the ranges add up to the file size. */
  lemma LengthsSumToTotal(totalSize: int, chunk: int)
    requires chunk >= 1
    ensures SumLengths(Ranges(totalSize, chunk)) == totalSize
  {
    RangesTile(totalSize, chunk);
    ContiguousSum(Ranges(totalSize, chunk));
  }

  /** Every chunk but the last is `totalSize / chunk` long; the last also takes the remainder. */
  lemma ChunkLengths(totalSize: int, chunk: int, i: int)
    requires totalSize >= 0 && chunk >= 1 && 0 <= i < chunk
    ensures i < chunk - 1 ==> ChunkRange(totalSize, chunk, i).Length() == totalSize / chunk
    ensures i == chunk - 1 ==>
      ChunkRange(totalSize, chunk, i).Length() == totalSize / chunk + totalSize % chunk
    ensures totalSize < chunk && i < chunk - 1 ==>
      ChunkRange(totalSize, chunk, i).end == ChunkRange(totalSize, chunk, i).start - 1
  {
    var q := totalSize / chunk;
    var r := ChunkRange(totalSize, chunk, i);
    assert GoQuo(totalSize, chunk) == q;
    assert r.start == i * q;
    if i == chunk - 1 {
      assert totalSize == chunk * q + totalSize % chunk;
      assert (chunk - 1) * q + q == chunk * q;
      assert r.Length() == totalSize - 1 - (chunk - 1) * q + 1;
    } else {
      assert r.end == i * q + q - 1;
      if totalSize < chunk {
        SmallQuotient(totalSize, chunk);
      }
    }
  }

  /** A dividend below the divisor has quotient 0. */
  lemma SmallQuotient(a: int, b: int)
    requires 0 <= a < b
    ensures a / b == 0
  {
  }

  /** The chunk that holds byte `b`. */
  function Owner(totalSize: int, chunk: int, b: int): int
    requires totalSize >= 0 && chunk >= 1
  {
    var q := totalSize / chunk;
    if q == 0 || b / q >= chunk then chunk - 1 else b / q
  }

  /** `q` whole multiples of `b / q` fit into `b`, one more does not. */
  lemma DivBounds(b: nat, q: nat)
    requires q > 0
    ensures (b / q) * q <= b < (b / q) * q + q
  {
  }

  /** The owner's range holds byte `b`. */
  lemma OwnerContains(totalSize: int, chunk: int, b: int)
    requires totalSize >= 0 && chunk >= 1 && 0 <= b < totalSize
    ensures 0 <= Owner(totalSize, chunk, b) < chunk
    ensures ChunkRange(totalSize, chunk, Owner(totalSize, chunk, b)).start <= b
    ensures b <= ChunkRange(totalSize, chunk, Owner(totalSize, chunk, b)).end
  {
    var q := totalSize / chunk;
    var k := Owner(totalSize, chunk, b);
    if q > 0 {
      DivBounds(b, q);
      if b / q >= chunk {
        MultiplyMonotone(chunk - 1, b / q, q);
      }
    }
  }

  /**
   * Every byte of the file lies in exactly one range: the ranges cover
   * `[0, totalSize - 1]` with no gap and no overlap.
   */
  lemma ExactlyOneOwner(totalSize: int, chunk: int, b: int)
    requires totalSize >= 0 && chunk >= 1 && 0 <= b < totalSize
    ensures 0 <= Owner(totalSize, chunk, b) < chunk
    ensures var r := ChunkRange(totalSize, chunk, Owner(totalSize, chunk, b)); r.start <= b <= r.end
    ensures forall i :: 0 <= i < chunk && ChunkRange(totalSize, chunk, i).start <= b <= ChunkRange(totalSize, chunk, i).end ==>
                          i == Owner(totalSize, chunk, b)
  {
    var k := Owner(totalSize, chunk, b);
    OwnerContains(totalSize, chunk, b);
    forall i | 0 <= i < chunk && ChunkRange(totalSize, chunk, i).start <= b <= ChunkRange(totalSize, chunk, i).end
      ensures i == k
    {
      if i < k {
        OrderedRanges(totalSize, chunk, i, k);
      } else if k < i {
        OrderedRanges(totalSize, chunk, k, i);
      }
    }
  }

  /** A range that comes earlier ends before a later one starts. */
  lemma OrderedRanges(totalSize: int, chunk: int, i: int, j: int)
    requires totalSize >= 0 && chunk >= 1 && 0 <= i < j < chunk
    ensures ChunkRange(totalSize, chunk, i).end < ChunkRange(totalSize, chunk, j).start
  {
    var q := totalSize / chunk;
    assert (i + 1) * q <= j * q by { MultiplyMonotone(i + 1, j, q); }
    assert (i + 1) * q == i * q + q;
  }

  lemma MultiplyMonotone(a: int, b: int, q: nat)
    requires a <= b
    ensures a * q <= b * q
  {
  }

  // ---------------------------------------------------------------------
  // The Range header

  /** The header value `bytes=start-end` written with `%d`. */
  function RangeHeader(r: ByteRange): string
  {
    "bytes=" + IntToString(r.start) + "-" + IntToString(r.end)
  }

  predicate AllDigits(s: string)
  {
    forall i :: 0 <= i < |s| ==> IsDigit(s[i])
  }

  /** `1*DIGIT` as a number. */
  function ParseDigits(s: string): Option<nat>
  {
    if s != [] && AllDigits(s) then Some(ParseNat(s)) else None
  }

  /** A `%d` number read back. */
  function ParseInt(s: string): Option<int>
  {
    if s != [] && s[0] == '-' then
      match ParseDigits(s[1..])
      case Some(n) => Some(0 - n as int)
      case None => None
    else
      match ParseDigits(s)
      case Some(n) => Some(n)
      case None => None
  }

  /** Reads `bytes=first-last` back into a range; `None` when the value does not have that shape. */
  function ParseRangeHeader(h: string): Option<ByteRange>
  {
    if |h| < 6 || h[..6] != "bytes=" then None
    else
      var rest := h[6..];
      match IndexOf(rest, "-")
      case None => None
      case Some(k) =>
        match (ParseDigits(rest[..k]), ParseInt(rest[k + 1..]))
        case (Some(first), Some(last)) => Some(ByteRange(first, last))
        case _ => None
  }

  /** The first `-` after a run of digits is the one that follows them. */
  lemma FirstDash(first: string, last: string)
    requires AllDigits(first)
    ensures IndexOf(first + "-" + last, "-") == Some(|first|)
  {
    var rest := first + "-" + last;
    assert OccursAt(rest, "-", |first|);
    forall j | 0 <= j < |first|
      ensures !OccursAt(rest, "-", j)
    {
      assert rest[j] == first[j];
      assert IsDigit(first[j]);
    }
  }

  /** `%d` read back gives the number. */
  lemma ParseIntToString(i: int)
    ensures ParseInt(IntToString(i)) == Some(i)
  {
    if i < 0 {
      assert IntToString(i)[1..] == NatToString(-i);
      ParseNatToString(-i);
    } else {
      ParseNatToString(i);
    }
  }

  /** The header carries the range exactly: reading it back gives the range again. */
  lemma RangeHeaderRoundTrip(r: ByteRange)
    requires r.start >= 0
    ensures ParseRangeHeader(RangeHeader(r)) == Some(r)
  {
    var first := NatToString(r.start);
    var last := IntToString(r.end);
    var rest := first + "-" + last;
    assert RangeHeader(r) == "bytes=" + rest;
    assert RangeHeader(r)[..6] == "bytes=" && RangeHeader(r)[6..] == rest;
    FirstDash(first, last);
    assert rest[..|first|] == first;
    assert rest[|first| + 1..] == last;
    ParseNatToString(r.start);
    ParseIntToString(r.end);
  }

  /**
   * A header names a range that a server can satisfy only when `first <= last`;
   * every chunk's header is of that kind exactly when the file has at least
   * as many bytes as there are chunks.
   */
  lemma {:induction false} AllRangesNonEmptyIff(totalSize: int, chunk: int)
    requires totalSize >= 0 && chunk >= 1
    ensures (forall i :: 0 <= i < chunk ==> ChunkRange(totalSize, chunk, i).start <= ChunkRange(totalSize, chunk, i).end)
            <==> totalSize >= chunk
  {
    if totalSize >= chunk {
      var q := totalSize / chunk;
      assert q >= 1;
      forall i | 0 <= i < chunk
        ensures ChunkRange(totalSize, chunk, i).start <= ChunkRange(totalSize, chunk, i).end
      {
        ChunkLengths(totalSize, chunk, i);
      }
    } else {
      ChunkLengths(totalSize, chunk, 0);
      if chunk == 1 {
        assert ChunkRange(totalSize, chunk, 0).end == totalSize - 1;
      }
    }
  }
}
