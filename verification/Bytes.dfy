/** Bytes, little-endian fields, concatenations and sums, shared by every serializer and parser. */
module Bytes {
  type byte = x: int | 0 <= x < 256
  type Data = seq<byte>
  type u16 = n: int | 0 <= n < 0x1_0000

  datatype Option<+T> = None | Some(value: T) {
    predicate IsFailure() { None? }
    function PropagateFailure<U>(): Option<U>
      requires None?
    {
      None
    }
    function Extract(): T
      requires Some?
    {
      value
    }
    function GetOr(default: T): T {
      match this
      case Some(v) => v
      case None => default
    }
  }

  // ---------------------------------------------------------------- little-endian fields

  function Pow256(width: nat): (p: nat)
    ensures p > 0
  {
    if width == 0 then 1 else 256 * Pow256(width - 1)
  }

  /** The low `width` bytes of `n`, least significant first: what a packed store of that width writes. */
  function Le(n: nat, width: nat): (b: Data)
    ensures |b| == width
  {
    if width == 0 then [] else [n % 256] + Le(n / 256, width - 1)
  }

  function FromLe(b: Data): (n: nat)
  {
    if b == [] then 0 else b[0] + 256 * FromLe(b[1..])
  }

  lemma {:induction false} LeInverse(n: nat, width: nat)
    requires n < Pow256(width)
    ensures FromLe(Le(n, width)) == n
  {
    if width > 0 {
      LeInverse(n / 256, width - 1);
      assert Le(n, width)[1..] == Le(n / 256, width - 1);
    }
  }

  lemma TwoBytes(n: u16)
    ensures Le(n, 2) == [n % 256, n / 256]
  {
    assert Le(n, 2) == [n % 256] + Le(n / 256, 1);
    assert Le(n / 256, 1) == [n / 256] + Le(n / 256 / 256, 0);
  }

  /** A store of a number that is too wide keeps its low bytes. */
  lemma {:induction false} LeModulo(n: nat, width: nat)
    ensures FromLe(Le(n, width)) == n % Pow256(width)
  {
    if width > 0 {
      LeModulo(n / 256, width - 1);
      assert Le(n, width)[1..] == Le(n / 256, width - 1);
      DigitAndRest(n, Pow256(width - 1));
    }
  }

  lemma DigitAndRest(n: nat, p: nat)
    requires p > 0
    ensures n % 256 + 256 * (n / 256 % p) == n % (256 * p)
  {
    var q, low := n / 256 / p, n % 256 + 256 * (n / 256 % p);
    assert n / 256 == q * p + n / 256 % p;
    assert n == q * (256 * p) + low;
    DivisionOf(n, 256 * p, q, low);
  }

  lemma DivisionOf(n: nat, d: nat, q: nat, r: nat)
    requires r < d && n == q * d + r
    ensures n % d == r && n / d == q
  {
    Multiples(n / d, q, d);
    Multiples(q, n / d, d);
    assert n == n / d * d + n % d;
  }

  lemma {:induction false} Multiples(a: nat, b: nat, d: nat)
    ensures a < b ==> a * d + d <= b * d
  {
    if a < b {
      Multiples(a, b - 1, d);
      assert b * d == (b - 1) * d + d;
    }
  }

  lemma {:induction false} FromLeInverse(b: Data)
    ensures FromLe(b) < Pow256(|b|) && Le(FromLe(b), |b|) == b
  {
    if b != [] {
      FromLeInverse(b[1..]);
      assert FromLe(b) / 256 == FromLe(b[1..]) && FromLe(b) % 256 == b[0];
      assert [b[0]] + b[1..] == b;
    }
  }

  lemma Widths()
    ensures Pow256(1) == 0x100 && Pow256(2) == 0x1_0000 && Pow256(4) == 0x1_0000_0000
  {
    assert Pow256(3) == 256 * Pow256(2);
  }

  lemma U16(b: Data)
    requires |b| == 2
    ensures FromLe(b) < 0x1_0000
  {
    FromLeInverse(b);
    Widths();
  }

  // ---------------------------------------------------------------- reading a prefix

  function Take(b: Data, n: nat): (r: Option<(Data, Data)>)
  {
    if n <= |b| then Some((b[..n], b[n..])) else None
  }

  function TakeLe(b: Data, width: nat): (r: Option<(nat, Data)>)
  {
    var (field, rest) :- Take(b, width);
    Some((FromLe(field), rest))
  }

  lemma TakePrefix(a: Data, rest: Data)
    ensures Take(a + rest, |a|) == Some((a, rest))
  {
    assert (a + rest)[..|a|] == a && (a + rest)[|a|..] == rest;
  }

  lemma TakeEnds(b: Data)
    ensures Take(b, 0) == Some(([], b))
    ensures Take(b, |b|) == Some((b, []))
  {
    assert b[..0] == [] && b[0..] == b && b[..|b|] == b && b[|b|..] == [];
  }

  lemma TakeLePrefix(n: nat, width: nat, rest: Data)
    requires n < Pow256(width)
    ensures TakeLe(Le(n, width) + rest, width) == Some((n, rest))
  {
    TakePrefix(Le(n, width), rest);
    LeInverse(n, width);
  }

  lemma TakeBytePrefix(n: byte, rest: Data)
    ensures TakeLe([n] + rest, 1) == Some((n, rest))
  {
    TakePrefix([n], rest);
    assert FromLe([n]) == n;
  }

  // ---------------------------------------------------------------- slices

  lemma SliceOfSlice(b: Data, lo: nat, n: nat, at: nat, m: nat)
    requires lo + n <= |b| && at + m <= n
    ensures b[lo..lo + n][at..at + m] == b[lo + at..lo + at + m]
  {
    var inner, direct := b[lo..lo + n][at..at + m], b[lo + at..lo + at + m];
    assert forall k :: 0 <= k < m ==> inner[k] == direct[k];
  }

  lemma SliceOfDrop(b: Data, at: nat, lo: nat, hi: nat)
    requires at + hi <= |b| && lo <= hi
    ensures b[at..][lo..hi] == b[at + lo..at + hi] && b[at..][hi..] == b[at + hi..]
  {
    var left, right := b[at..][lo..hi], b[at + lo..at + hi];
    assert forall k :: 0 <= k < hi - lo ==> left[k] == right[k];
    var rest, direct := b[at..][hi..], b[at + hi..];
    assert forall k :: 0 <= k < |direct| ==> rest[k] == direct[k];
  }

  lemma JoinedSlices(b: Data, at: nat, first: Data, rest: Data)
    requires at + |first + rest| <= |b| && b[at..at + |first + rest|] == first + rest
    ensures b[at..at + |first|] == first && b[at + |first|..at + |first| + |rest|] == rest
  {
    SliceOfSlice(b, at, |first + rest|, 0, |first|);
    SliceOfSlice(b, at, |first + rest|, |first|, |rest|);
    assert (first + rest)[0..|first|] == first && (first + rest)[|first|..|first| + |rest|] == rest;
  }

  // ---------------------------------------------------------------- concatenation

  lemma Regroup(a: Data, b: Data, c: Data)
    ensures a + b + c == a + (b + c)
  {
  }

  function Flat(parts: seq<Data>): (b: Data)
  {
    if parts == [] then [] else parts[0] + Flat(parts[1..])
  }

  lemma {:induction false} FlatAppend(a: seq<Data>, b: seq<Data>)
    ensures Flat(a + b) == Flat(a) + Flat(b)
  {
    if a == [] {
      assert a + b == b;
    } else {
      hide Flat;
      var first, rest := a[0], a[1..];
      FlatAppend(rest, b);
      assert a == [first] + rest && a + b == [first] + (rest + b);
      FlatFront(first, rest);
      FlatFront(first, rest + b);
      Regroup(first, Flat(rest), Flat(b));
    }
  }

  lemma FlatFront(first: Data, rest: seq<Data>)
    ensures Flat([first] + rest) == first + Flat(rest)
  {
    assert ([first] + rest)[1..] == rest;
  }

  lemma FlatCons(parts: seq<Data>)
    requires parts != []
    ensures Flat(parts) == parts[0] + Flat(parts[1..])
  {
  }

  lemma FlatNone()
    ensures Flat([]) == []
  {
  }

  lemma FlatOne(x: Data)
    ensures Flat([x]) == x
  {
    assert Flat([x]) == x + Flat([]);
  }

  lemma FlatSnoc(parts: seq<Data>, i: nat)
    requires i < |parts|
    ensures Flat(parts[..i + 1]) == Flat(parts[..i]) + parts[i]
  {
    hide Flat;
    assert parts[..i + 1] == parts[..i] + [parts[i]];
    FlatAppend(parts[..i], [parts[i]]);
    FlatOne(parts[i]);
  }

  lemma SplitAt(parts: seq<Data>, i: nat)
    requires i <= |parts|
    ensures parts[..i] + parts[i..] == parts
  {
  }

  lemma FlatSplit(parts: seq<Data>, i: nat)
    requires i < |parts|
    ensures Flat(parts) == Flat(parts[..i]) + parts[i] + Flat(parts[i + 1..])
  {
    hide Flat;
    FlatSnoc(parts, i);
    FlatAppend(parts[..i + 1], parts[i + 1..]);
    SplitAt(parts, i + 1);
  }

  function Zeros(n: nat): (z: Data)
    ensures |z| == n && forall i :: 0 <= i < n ==> z[i] == 0
  {
    seq(n, _ => 0)
  }

  /** The bytes of an ASCII literal. */
  function Ascii(s: string): (b: Data)
    requires forall i :: 0 <= i < |s| ==> s[i] < 128 as char
    ensures |b| == |s| && forall i :: 0 <= i < |s| ==> b[i] == s[i] as int
  {
    seq(|s|, i requires 0 <= i < |s| => s[i] as int)
  }

  // ---------------------------------------------------------------- sums

  function Sum(b: Data): nat {
    if b == [] then 0 else b[0] + Sum(b[1..])
  }

  lemma {:induction false} SumAppend(a: Data, b: Data)
    ensures Sum(a + b) == Sum(a) + Sum(b)
  {
    if a == [] {
      assert a + b == b;
    } else {
      SumAppend(a[1..], b);
      assert (a + b)[1..] == a[1..] + b;
    }
  }

  lemma SumNone()
    ensures Sum([]) == 0
  {
  }

  lemma SumSnoc(b: Data, i: nat)
    requires i < |b|
    ensures Sum(b[..i + 1]) == Sum(b[..i]) + b[i]
  {
    assert b[..i + 1] == b[..i] + [b[i]];
    SumAppend(b[..i], [b[i]]);
    SumOne(b[i]);
  }

  lemma SumOne(x: byte)
    ensures Sum([x]) == x
  {
    assert Sum([x]) == x + Sum([]);
  }

  /** The byte that brings a sum to zero mod 256. */
  function Balancing(sum: nat): (c: byte)
    ensures (sum + c) % 256 == 0
  {
    var over := sum % 256;
    if over == 0 then 0
    else
      assert sum + (256 - over) == 256 * (sum / 256 + 1);
      256 - over
  }

  lemma ModSum(a: nat, b: nat)
    ensures (a % 256 + b) % 256 == (a + b) % 256
  {
    assert a + b == 256 * (a / 256) + (a % 256 + b);
  }

  lemma BalancingByte(sum: nat)
    ensures Balancing(sum) == (256 - sum % 256) % 256
  {
    var over := sum % 256;
    assert over == 0 ==> (256 - over) % 256 == 0;
    assert over > 0 ==> (256 - over) % 256 == 256 - over;
  }

  // ---------------------------------------------------------------- bit vectors

  /** A bit array of `n` bits in which exactly the listed positions are set. */
  function Bits(members: seq<int>, n: nat): (bits: seq<bool>)
    ensures |bits| == n && forall i :: 0 <= i < n ==> bits[i] == (i in members)
  {
    seq(n, i => i in members)
  }

  /** The number a little-endian bit array stands for. */
  function BitsToNat(bits: seq<bool>): (n: nat)
  {
    if bits == [] then 0 else (if bits[0] then 1 else 0) + 2 * BitsToNat(bits[1..])
  }

  function NatToBits(n: nat, width: nat): (bits: seq<bool>)
    ensures |bits| == width
  {
    if width == 0 then [] else [n % 2 == 1] + NatToBits(n / 2, width - 1)
  }

  function Pow2(n: nat): (p: nat)
    ensures p > 0
  {
    if n == 0 then 1 else 2 * Pow2(n - 1)
  }

  lemma {:induction false} BitsInverse(bits: seq<bool>)
    ensures BitsToNat(bits) < Pow2(|bits|) && NatToBits(BitsToNat(bits), |bits|) == bits
  {
    if bits != [] {
      BitsInverse(bits[1..]);
      assert BitsToNat(bits) / 2 == BitsToNat(bits[1..]);
      assert [bits[0]] + bits[1..] == bits;
    }
  }

  /** Bit `i` of a bit array is worth 2 to the power of `i`. */
  lemma {:induction false} BitAt(n: nat, width: nat, i: nat)
    requires i < width
    ensures NatToBits(n, width)[i] == (n / Pow2(i) % 2 == 1)
    decreases width
  {
    if i > 0 {
      BitAt(n / 2, width - 1, i - 1);
      HalvesOf(n, Pow2(i - 1));
    }
  }

  lemma HalvesOf(n: nat, p: nat)
    requires p > 0
    ensures n / 2 / p == n / (2 * p)
  {
    var q, r := n / 2 / p, n / 2 % p;
    assert n / 2 == q * p + r;
    assert n == q * (2 * p) + (2 * r + n % 2);
    DivisionOf(n, 2 * p, q, 2 * r + n % 2);
  }

  lemma BitWidths()
    ensures Pow2(8) == 0x100 && Pow2(16) == 0x1_0000 && Pow2(32) == 0x1_0000_0000
  {
    assert Pow2(4) == 16 && Pow2(8) == 256;
    assert Pow2(12) == 0x1000 && Pow2(16) == 0x1_0000;
    assert Pow2(20) == 0x10_0000 && Pow2(24) == 0x100_0000;
    assert Pow2(28) == 0x1000_0000 && Pow2(32) == 0x1_0000_0000;
  }

  /** Eight bits to the byte, bit 0 of the array in bit 0 of the first byte. */
  function PackBits(bits: seq<bool>): (b: Data)
    requires |bits| % 8 == 0
    ensures |b| == |bits| / 8
  {
    if bits == [] then []
    else
      BitsInverse(bits[..8]);
      BitWidths();
      [BitsToNat(bits[..8])] + PackBits(bits[8..])
  }

  function UnpackBits(b: Data): (bits: seq<bool>)
    ensures |bits| == 8 * |b|
  {
    if b == [] then [] else NatToBits(b[0], 8) + UnpackBits(b[1..])
  }

  lemma {:induction false} PackInverse(bits: seq<bool>)
    requires |bits| % 8 == 0
    ensures UnpackBits(PackBits(bits)) == bits
  {
    if bits != [] {
      PackInverse(bits[8..]);
      BitsInverse(bits[..8]);
      assert PackBits(bits)[1..] == PackBits(bits[8..]);
      assert bits[..8] + bits[8..] == bits;
    }
  }

  lemma PackStep(bits: seq<bool>)
    requires |bits| % 8 == 0 && |bits| >= 8
    ensures PackBits(bits) == [PackBits(bits)[0]] + PackBits(bits[8..])
    ensures NatToBits(PackBits(bits)[0], 8) == bits[..8]
  {
    BitsInverse(bits[..8]);
  }

  /** Bit `j` of byte `k` is bit `8 * k + j` of the array. */
  lemma {:induction false} PackedBit(bits: seq<bool>, k: nat, j: nat)
    requires |bits| % 8 == 0 && 8 * k + j < |bits| && j < 8
    ensures bits[8 * k + j] == (PackBits(bits)[k] / Pow2(j) % 2 == 1)
    decreases k
  {
    hide PackBits, NatToBits, Pow2;
    PackStep(bits);
    if k == 0 {
      BitAt(PackBits(bits)[0], 8, j);
    } else {
      PackedBit(bits[8..], k - 1, j);
    }
  }
}
