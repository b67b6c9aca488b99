/** Splitting a text into fixed-size pieces for simulated streaming. */
module Chunks {
  import opened Wrappers

  /** The pieces `s[0..size]`, `s[size..2*size]`, ... of a positive size. */
  function Pieces(s: string, size: nat): (r: seq<string>)
    requires size > 0
    decreases |s|
  {
    if |s| == 0 then []
    else if |s| <= size then [s]
    else [s[..size]] + Pieces(s[size..], size)
  }

  /** `chunk_string`: `range(0, len(s), size)` raises on a zero step and is
      empty for a negative one. */
  function ChunkString(s: string, size: int): (r: Result<seq<string>, string>)
    ensures r.Err? <==> size == 0
    ensures size < 0 ==> r == Ok([])
  {
    if size == 0 then Err("range() arg 3 must not be zero")
    else if size < 0 then Ok([])
    else Ok(Pieces(s, size))
  }

  /** The concatenation of a sequence of strings. */
  function Concat(parts: seq<string>): string {
    if |parts| == 0 then "" else parts[0] + Concat(parts[1..])
  }

  /** Joining the pieces gives the text back. */
  lemma {:induction false} PiecesRoundTrip(s: string, size: nat)
    requires size > 0
    ensures Concat(Pieces(s, size)) == s
    decreases |s|
  {
    if |s| == 0 {
    } else if |s| <= size {
      assert Concat([s]) == s + Concat([]);
    } else {
      var rest := Pieces(s[size..], size);
      PiecesRoundTrip(s[size..], size);
      assert Pieces(s, size) == [s[..size]] + rest;
      assert ([s[..size]] + rest)[1..] == rest;
      assert s[..size] + s[size..] == s;
    }
  }

  /** Every piece is non-empty and at most `size` long, and every piece
      but the last is exactly `size` long. */
  lemma {:induction false} PiecesBounds(s: string, size: nat)
    requires size > 0
    ensures forall i :: 0 <= i < |Pieces(s, size)| ==> 0 < |Pieces(s, size)[i]| <= size
    ensures forall i :: 0 <= i < |Pieces(s, size)| - 1 ==> |Pieces(s, size)[i]| == size
    decreases |s|
  {
    if |s| > size {
      PiecesBounds(s[size..], size);
      var rest := Pieces(s[size..], size);
      assert Pieces(s, size) == [s[..size]] + rest;
      forall i | 1 <= i < |Pieces(s, size)| ensures Pieces(s, size)[i] == rest[i - 1] { }
    }
  }

  /** There are ceil(|s| / size) pieces; the empty text has none. */
  lemma {:induction false} PiecesCount(s: string, size: nat)
    requires size > 0
    ensures |Pieces(s, size)| == (|s| + size - 1) / size
    decreases |s|
  {
    if |s| > size {
      PiecesCount(s[size..], size);
      CountStep(|s|, size);
    } else if |s| > 0 {
      OneBlock(|s|, size);
    }
  }

  /** One block more than the text past the first block. */
  lemma CountStep(n: nat, size: nat)
    requires n > size > 0
    ensures (n + size - 1) / size == (n - size + size - 1) / size + 1
  {
    var a: nat := n - size + size - 1;
    DivShift(a, size);
    assert n + size - 1 == a + size;
  }

  /** A non-empty text no longer than a block is one block. */
  lemma OneBlock(n: nat, size: nat)
    requires 0 < n <= size
    ensures (n + size - 1) / size == 1
  {
    var a: nat := n - 1;
    assert a < size;
    assert a / size == 0;
    DivShift(a, size);
  }

  /** Products with the same positive factor keep the order of the other. */
  lemma MulLess(x: int, y: int, d: int)
    requires d > 0 && x * d < y * d
    ensures x < y
  {
  }

  /** Adding the divisor adds one to the quotient. */
  lemma DivShift(a: nat, d: nat)
    requires d > 0
    ensures (a + d) / d == a / d + 1
  {
    var q := a / d;
    var q2 := (a + d) / d;
    assert a == q * d + a % d;
    assert a + d == q2 * d + (a + d) % d;
    assert (q + 2) * d == q * d + 2 * d;
    assert (q + 1) * d == q * d + d;
    assert (q2 + 1) * d == q2 * d + d;
    MulLess(q2, q + 2, d);
    MulLess(q + 1, q2 + 1, d);
  }

  /** The pieces of a positive size, read through `ChunkString`. */
  lemma ChunkStringMeaning(s: string, size: int)
    requires size > 0
    ensures ChunkString(s, size).Ok?
    ensures Concat(ChunkString(s, size).value) == s
    ensures |ChunkString(s, size).value| == (|s| + size - 1) / size
    ensures forall i :: 0 <= i < |ChunkString(s, size).value| ==> 0 < |ChunkString(s, size).value[i]| <= size
  {
    PiecesRoundTrip(s, size);
    PiecesCount(s, size);
    PiecesBounds(s, size);
  }
}
