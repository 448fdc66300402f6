/**
 The fixed-width text splitter `chunk_text(text, max_length=512)` used before
 embedding: `[text[i:i+max_length] for i in range(0, len(text), max_length)]`.
 */
module Chunker {
  import opened Common

  /** The width used by every call in the upload step. */
  const DefaultMaxLength: nat := 512

  /** `range(0, n, 0)` raises ValueError; that is the only way the splitter fails. */
  datatype ChunkError = ZeroStep

  /** All pieces joined back together, in order. */
  function Concat(pieces: seq<string>): string
  {
    if pieces == [] then [] else pieces[0] + Concat(pieces[1..])
  }

  /**
   Fixed-width split for a positive width: consecutive slices of `m`
   characters, the last one possibly shorter, covering the whole text.
   */
  function Pieces(text: string, m: nat): (r: seq<string>)
    requires m > 0
    ensures forall k :: 0 <= k < |r| ==> 0 < |r[k]| <= m
    ensures forall k :: 0 <= k < |r| - 1 ==> |r[k]| == m
    ensures |r| == 0 <==> |text| == 0
    decreases |text|
  {
    if |text| == 0 then []
    else if |text| <= m then [text]
    else
      [text[..m]] + Pieces(text[m..], m)
  }

  /** Joining the pieces gives back the text exactly. */
  lemma {:induction false} PiecesConcat(text: string, m: nat)
    requires m > 0
    ensures Concat(Pieces(text, m)) == text
    decreases |text|
  {
    if |text| > m {
      var r := Pieces(text, m);
      PiecesConcat(text[m..], m);
      assert r[1..] == Pieces(text[m..], m);
      assert text[..m] + text[m..] == text;
    }
  }

  /**
   `chunk_text(text, maxLength)` over every integer width: a zero width makes
   `range` raise, a negative width gives an empty range and so no pieces.
   */
  function ChunkText(text: string, maxLength: int): (r: Result<seq<string>, ChunkError>)
    ensures maxLength == 0 <==> r.Failure?
    ensures maxLength < 0 ==> r == Success([])
    ensures maxLength > 0 ==> r.Success? && Concat(r.value) == text
    ensures maxLength > 0 ==> forall k :: 0 <= k < |r.value| ==> 0 < |r.value[k]| <= maxLength
    ensures maxLength > 0 ==> forall k :: 0 <= k < |r.value| - 1 ==> |r.value[k]| == maxLength
    ensures maxLength > 0 ==> (|text| == 0 <==> r.value == [])
    ensures maxLength > 0 ==> |r.value| == (|text| + maxLength - 1) / maxLength
  {
    if maxLength == 0 then Failure(ZeroStep)
    else if maxLength < 0 then Success([])
    else
      PiecesConcat(text, maxLength);
      PieceCount(text, maxLength);
      Success(Pieces(text, maxLength))
  }

  /** Number of indices in `range(0, n, m)`, that is, the ceiling of n / m. */
  function RangeCount(n: nat, m: nat): nat
    requires m > 0
  {
    (n + m - 1) / m
  }

  /** The list comprehension read literally: slice `k` starts at `k * m` and
      Python clamps its end to the length of the text. */
  function RangeSlices(text: string, m: nat): seq<string>
    requires m > 0
  {
    seq(RangeCount(|text|, m), k requires 0 <= k < RangeCount(|text|, m) =>
      if k * m <= |text| then text[k * m..Min(k * m + m, |text|)] else [])
  }

  lemma MulSucc(k: nat, m: nat)
    ensures (k + 1) * m == k * m + m
  {
  }

  lemma MulMonotone(a: nat, b: nat, m: nat)
    requires a <= b
    ensures a * m <= b * m
  {
    var c := b - a;
    assert b * m == a * m + c * m;
  }

  /** The ceiling bounds: `range(0, n, m)` has c elements with (c - 1) * m < n <= c * m. */
  lemma RangeCountBounds(n: nat, m: nat)
    requires m > 0
    ensures var c := RangeCount(n, m); (c - 1) * m < n <= c * m
  {
    var c := RangeCount(n, m);
    assert c * m <= n + m - 1 < c * m + m;
    if c > 0 {
      MulSucc(c - 1, m);
    }
  }

  /** `range(0, n, m)` has q elements exactly when (q - 1) * m < n <= q * m. */
  lemma CeilingDivision(n: nat, m: nat, q: nat)
    requires m > 0
    ensures RangeCount(n, m) == q <==> (q - 1) * m < n <= q * m
  {
    RangeCountBounds(n, m);
    if (q - 1) * m < n <= q * m {
      var x := n + m - 1;
      var d := x / m;
      assert d * m <= x < d * m + m;
      if q > 0 {
        MulSucc(q - 1, m);
      }
      assert q * m <= x < q * m + m;
      if d < q {
        MulMonotone(d + 1, q, m);
        MulSucc(d, m);
      } else if d > q {
        MulMonotone(q + 1, d, m);
        MulSucc(q, m);
      }
    }
  }

  /** Only the last piece may be short: the pieces cover between
      (|r| - 1) * m + 1 and |r| * m characters. */
  lemma {:induction false} PieceCountBounds(text: string, m: nat)
    requires m > 0
    ensures (|Pieces(text, m)| - 1) * m < |text| <= |Pieces(text, m)| * m
    decreases |text|
  {
    if |text| > m {
      var n := |Pieces(text[m..], m)|;
      PieceCountBounds(text[m..], m);
      assert |Pieces(text, m)| == n + 1;
      MulSucc(n, m);
      if n > 0 {
        MulSucc(n - 1, m);
      }
    }
  }

  /** `k * m` built by repeated addition, which keeps the piece lemma linear. */
  function Offset(k: nat, m: nat): nat
  {
    if k == 0 then 0 else Offset(k - 1, m) + m
  }

  lemma {:induction false} OffsetIsProduct(k: nat, m: nat)
    ensures Offset(k, m) == k * m
  {
    if k > 0 {
      OffsetIsProduct(k - 1, m);
      MulSucc(k - 1, m);
    }
  }

  /** The first piece is the text's first `m` characters, clamped. */
  lemma PieceFirst(text: string, m: nat)
    requires m > 0 && |text| > 0
    ensures Pieces(text, m)[0] == text[0..Min(m, |text|)]
  {
    if |text| <= m {
      assert text[0..|text|] == text;
    }
  }

  /** Piece `k > 0` is piece `k - 1` of the text after the first `m` characters. */
  lemma PieceShift(text: string, m: nat, k: nat)
    requires m > 0 && 0 < k < |Pieces(text, m)|
    ensures |text| > m && k - 1 < |Pieces(text[m..], m)|
    ensures Pieces(text, m)[k] == Pieces(text[m..], m)[k - 1]
  {
    assert |text| > m;
    assert Pieces(text, m) == [text[..m]] + Pieces(text[m..], m);
  }

  lemma SliceOfDrop(text: string, m: nat, j: nat, e: nat)
    requires m <= |text| && j <= e <= |text| - m
    ensures text[m..][j..e] == text[m + j..m + e]
  {
    assert forall i :: 0 <= i < e - j ==> text[m..][j..e][i] == text[m + j..m + e][i];
  }

  /** Piece `k` is the slice of `m` characters starting at offset `k * m`, clamped. */
  lemma {:induction false} PieceAt(text: string, m: nat, k: nat)
    requires m > 0 && k < |Pieces(text, m)|
    ensures Offset(k, m) < |text|
    ensures Pieces(text, m)[k] == text[Offset(k, m)..Min(Offset(k, m) + m, |text|)]
    decreases |text|
  {
    if k > 0 {
      PieceShift(text, m, k);
      var tail := text[m..];
      PieceAt(tail, m, k - 1);
      var j := Offset(k - 1, m);
      var e := Min(j + m, |tail|);
      assert Offset(k, m) == m + j && Min(Offset(k, m) + m, |text|) == m + e;
      SliceOfDrop(text, m, j, e);
    } else {
      PieceFirst(text, m);
    }
  }

  /** The recursive splitter and the literal comprehension agree everywhere. */
  lemma PiecesAreRangeSlices(text: string, m: nat)
    requires m > 0
    ensures Pieces(text, m) == RangeSlices(text, m)
  {
    var r := Pieces(text, m);
    PieceCountBounds(text, m);
    CeilingDivision(|text|, m, |r|);
    forall k | 0 <= k < |r| ensures r[k] == RangeSlices(text, m)[k] {
      PieceAt(text, m, k);
      OffsetIsProduct(k, m);
    }
  }

  /** The number of pieces is the ceiling of |text| / m. */
  lemma PieceCount(text: string, m: nat)
    requires m > 0
    ensures |Pieces(text, m)| == (|text| + m - 1) / m
  {
    PieceCountBounds(text, m);
    CeilingDivision(|text|, m, |Pieces(text, m)|);
  }

  /** The last piece is the rest of the text from the start of the last
      `m`-character window. */
  lemma LastPiece(text: string, m: nat)
    requires m > 0 && |text| > 0
    ensures var n := |Pieces(text, m)|;
            n > 0 && (n - 1) * m < |text| && Pieces(text, m)[n - 1] == text[(n - 1) * m..]
  {
    var n := |Pieces(text, m)|;
    PieceAt(text, m, n - 1);
    OffsetIsProduct(n - 1, m);
    PieceCountBounds(text, m);
    MulSucc(n - 1, m);
  }
}
