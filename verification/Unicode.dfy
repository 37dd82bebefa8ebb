/** UTF-8 as Rust strings store it: encoded bytes, byte lengths and character
    boundaries of a string (section 3 of RFC 3629). */
module Unicode {

  type Byte = b: int | 0 <= b < 256

  /** The byte of `<`. */
  const LT: Byte := 0x3C

  /** `char::len_utf8`. */
  function Width(c: char): (w: nat)
    ensures 1 <= w <= 4
  {
    var v := c as int;
    if v < 0x80 then 1 else if v < 0x800 then 2 else if v < 0x10000 then 3 else 4
  }

  /** The UTF-8 bytes of one scalar. */
  function Encode(c: char): (b: seq<Byte>)
    ensures |b| == Width(c)
  {
    var v := c as int;
    if v < 0x80 then [v]
    else if v < 0x800 then [0xC0 + v / 64, 0x80 + v % 64]
    else if v < 0x10000 then [0xE0 + v / 4096, 0x80 + v / 64 % 64, 0x80 + v % 64]
    else [0xF0 + v / 262144, 0x80 + v / 4096 % 64, 0x80 + v / 64 % 64, 0x80 + v % 64]
  }

  /** `str::as_bytes`. */
  function Utf8(s: string): (b: seq<Byte>)
    ensures |b| == Len(s)
  {
    if s == "" then [] else Encode(s[0]) + Utf8(s[1..])
  }

  /** `str::len`: the number of bytes, not of characters. */
  function Len(s: string): (n: nat)
    ensures |s| <= n
  {
    if s == "" then 0 else Width(s[0]) + Len(s[1..])
  }

  lemma {:induction false} LenConcat(a: string, b: string)
    ensures Len(a + b) == Len(a) + Len(b)
  {
    hide Width;
    if a == "" {
      assert a + b == b;
    } else {
      LenConcat(a[1..], b);
      assert (a + b)[1..] == a[1..] + b;
    }
  }

  lemma {:induction false} Utf8Concat(a: string, b: string)
    ensures Utf8(a + b) == Utf8(a) + Utf8(b)
  {
    hide Encode, Width;
    if a == "" {
      assert a + b == b;
    } else {
      assert (a + b)[1..] == a[1..] + b;
      Utf8Concat(a[1..], b);
      Associative(Encode(a[0]), Utf8(a[1..]), Utf8(b));
    }
  }

  lemma Associative<T>(a: seq<T>, b: seq<T>, c: seq<T>)
    ensures a + (b + c) == (a + b) + c
  {}

  lemma DropConcat<T>(a: seq<T>, b: seq<T>, i: nat)
    requires i <= |a|
    ensures (a + b)[i..] == a[i..] + b
  {}

  lemma DropDrop<T>(a: seq<T>, i: nat, j: nat)
    requires i + j <= |a|
    ensures a[i..][j..] == a[i + j..]
  {}

  lemma DropSlice<T>(a: seq<T>, from: nat, i: nat, j: nat)
    requires i <= j && from + j <= |a|
    ensures a[from..][i..j] == a[from + i..from + j]
  {}

  /** The byte length splits at every character index. */
  lemma LenSplit(s: string, k: nat)
    requires k <= |s|
    ensures Len(s) == Len(s[..k]) + Len(s[k..])
  {
    hide *;
    LenConcat(s[..k], s[k..]);
    assert s[..k] + s[k..] == s;
  }

  /** Byte offsets of characters grow strictly, so offsets order characters. */
  lemma OffsetsIncrease(s: string, i: nat, j: nat)
    requires i <= j <= |s|
    ensures Len(s[..i]) + (j - i) <= Len(s[..j])
    ensures Len(s[..j]) == Len(s[..i]) + Len(s[i..j])
  {
    LenConcat(s[..i], s[i..j]);
    assert s[..i] + s[i..j] == s[..j];
  }

  lemma OffsetStep(s: string, i: nat)
    requires i < |s|
    ensures Len(s[..i + 1]) == Len(s[..i]) + Width(s[i])
  {
    OffsetsIncrease(s, i, i + 1);
    assert s[i..i + 1] == [s[i]];
  }

  /** `str::is_char_boundary`. */
  predicate IsBoundary(s: string, offset: nat) {
    exists k: nat | k <= |s| :: Len(s[..k]) == offset
  }

  /** The character index of a boundary byte offset. */
  function CharIndex(s: string, offset: nat): (k: nat)
    requires IsBoundary(s, offset)
    ensures k <= |s| && Len(s[..k]) == offset
  {
    BoundaryUnique(s);
    var k: nat :| k <= |s| && Len(s[..k]) == offset;
    k
  }

  lemma BoundaryUnique(s: string)
    ensures forall i: nat, j: nat | i <= |s| && j <= |s| && Len(s[..i]) == Len(s[..j]) :: i == j
  {
    forall i: nat, j: nat | i <= |s| && j <= |s| && Len(s[..i]) == Len(s[..j])
      ensures i == j
    {
      if i <= j { OffsetsIncrease(s, i, j); } else { OffsetsIncrease(s, j, i); }
    }
  }

  lemma CharIndexAt(s: string, k: nat)
    requires k <= |s|
    ensures IsBoundary(s, Len(s[..k])) && CharIndex(s, Len(s[..k])) == k
  {
    BoundaryUnique(s);
  }

  lemma BoundaryZero(s: string)
    ensures IsBoundary(s, 0) && CharIndex(s, 0) == 0 && s[..0] == ""
  {
    assert s[..0] == "";
    CharIndexAt(s, 0);
  }

  predicate IsAscii(c: char) { c as int < 0x80 }

  /** The first byte tells an ASCII character from a longer one. */
  lemma LeadByte(c: char)
    ensures Encode(c)[0] < 0x80 <==> IsAscii(c)
    ensures IsAscii(c) ==> Encode(c) == [c as int]
    ensures forall i: nat | i < Width(c) && !IsAscii(c) :: Encode(c)[i] >= 0x80
  {}

  /** Bytes below 0x80 are exactly the ASCII characters. */
  lemma {:induction false} AsciiBytes(s: string, n: nat)
    requires n <= Len(s) && forall i: nat | i < n :: Utf8(s)[i] < 0x80
    ensures n <= |s| && forall i: nat | i < n :: s[i] as int == Utf8(s)[i]
  {
    if n > 0 {
      var all, rest := Utf8(s), Utf8(s[1..]);
      LeadByte(s[0]);
      assert all[0] == Encode(s[0])[0];
      assert all == [s[0] as int] + rest;
      forall i: nat | i < n - 1 ensures rest[i] < 0x80 {
        assert rest[i] == all[i + 1];
      }
      AsciiBytes(s[1..], n - 1);
      forall i: nat | i < n ensures s[i] as int == all[i] {
        if i > 0 { assert s[i] == s[1..][i - 1] && all[i] == rest[i - 1]; }
      }
    }
  }

  lemma {:induction false} AsciiLen(s: string)
    requires forall i: nat | i < |s| :: IsAscii(s[i])
    ensures Len(s) == |s|
  {
    if s != "" { AsciiLen(s[1..]); }
  }

  /** Skipping ASCII bytes stays on a character boundary. */
  lemma AsciiPrefix(s: string, n: nat)
    requires n <= Len(s) && forall i: nat | i < n :: Utf8(s)[i] < 0x80
    ensures n <= |s| && Len(s[..n]) == n && Len(s[n..]) == Len(s) - n
    ensures forall i: nat | i < n :: s[i] as int == Utf8(s)[i]
  {
    AsciiBytes(s, n);
    AsciiLen(s[..n]);
    LenSplit(s, n);
  }

  /** `floor_char_boundary`, as a character index. */
  function FloorBoundary(s: string, offset: nat): (k: nat)
    ensures k <= |s|
  {
    if s == "" || Width(s[0]) > offset then 0 else 1 + FloorBoundary(s[1..], offset - Width(s[0]))
  }

  /** The last boundary at or before an offset. */
  lemma {:induction false} FloorExact(s: string, offset: nat)
    ensures Len(s[..FloorBoundary(s, offset)]) <= offset
    ensures FloorBoundary(s, offset) < |s| ==> Len(s[..FloorBoundary(s, offset) + 1]) > offset
    decreases |s|
  {
    hide Width;
    if s != "" {
      assert s[..1][1..] == "" && s[..1][0] == s[0];
      if Width(s[0]) <= offset {
        var k := FloorBoundary(s[1..], offset - Width(s[0]));
        FloorExact(s[1..], offset - Width(s[0]));
        assert s[..k + 1][1..] == s[1..][..k];
        if k < |s| - 1 { assert s[..k + 2][1..] == s[1..][..k + 1]; }
      }
    }
  }

  lemma FloorBefore(s: string, n: nat, k: nat, gap: nat)
    requires n <= |s| && k <= |s| && Len(s[..k]) <= gap <= Len(s[..n])
    ensures k <= n
  {
    if n < k { OffsetsIncrease(s, n, k); }
  }

  /** A boundary is its own floor. */
  lemma FloorAt(s: string, k: nat)
    requires k <= |s|
    ensures FloorBoundary(s, Len(s[..k])) == k
  {
    var f := FloorBoundary(s, Len(s[..k]));
    FloorExact(s, Len(s[..k]));
    if f < k { OffsetsIncrease(s, f + 1, k); }
    if k < f { OffsetsIncrease(s, k, f); }
  }

  /** Text behind the boundary does not move it. */
  lemma {:induction false} FloorStable(s: string, more: string, offset: nat)
    requires offset <= Len(s)
    ensures FloorBoundary(s + more, offset) == FloorBoundary(s, offset)
    ensures (s + more)[..FloorBoundary(s, offset)] == s[..FloorBoundary(s, offset)]
  {
    hide Width;
    if s != "" {
      assert (s + more)[1..] == s[1..] + more && (s + more)[0] == s[0];
      if Width(s[0]) <= offset { FloorStable(s[1..], more, offset - Width(s[0])); }
    }
  }
}
