/** The frame check sequence of IEEE 802.3, section 3.2.9, as the division of polynomials that the standard defines.
    A polynomial over the field of two elements is the list of its coefficients, highest power first. */
module FrameCheck {
  import opened Bytes

  type Polynomial = seq<bool>

  const WIDTH := 32

  /** The coefficients of G(x) behind that of x^32. */
  function Generator(): (g: Polynomial)
    ensures |g| == WIDTH
  {
    seq(WIDTH, i requires 0 <= i < WIDTH => 31 - i in {26, 23, 22, 16, 12, 11, 10, 8, 7, 5, 4, 2, 1, 0})
  }

  function Added(a: Polynomial, b: Polynomial): (s: Polynomial)
    requires |a| == |b|
    ensures |s| == |a| && forall i :: 0 <= i < |a| ==> s[i] == (a[i] != b[i])
  {
    seq(|a|, i requires 0 <= i < |a| => a[i] != b[i])
  }

  function Complemented(a: Polynomial): (c: Polynomial)
    ensures |c| == |a| && forall i :: 0 <= i < |a| ==> c[i] == !a[i]
  {
    seq(|a|, i requires 0 <= i < |a| => !a[i])
  }

  function NoBits(n: nat): (z: Polynomial)
    ensures |z| == n && forall i :: 0 <= i < n ==> !z[i]
  {
    seq(n, _ => false)
  }

  /** What is left of a polynomial after division by G(x): a leading term is taken away with a multiple of G(x). */
  function Remainder(p: Polynomial): (r: Polynomial)
    requires |p| >= WIDTH
    ensures |r| == WIDTH
    decreases |p|
  {
    if |p| == WIDTH then p
    else Remainder((if p[0] then Added(p[1..33], Generator()) else p[1..33]) + p[33..])
  }

  /** Every byte is sent with its least significant bit first. */
  function Sent(data: Data): Polynomial {
    if data == [] then [] else NatToBits(data[0], 8) + Sent(data[1..])
  }

  /** The bits as sent, times x^32, the first 32 of them complemented. */
  function Dividend(data: Data): (p: Polynomial)
    ensures |p| >= WIDTH
  {
    var p := Sent(data) + NoBits(WIDTH);
    Complemented(p[..WIDTH]) + p[WIDTH..]
  }

  /** The complemented remainder; the coefficient of x^31 is sent first, so it is the least significant bit. */
  function FrameCheckSequence(data: Data): nat {
    BitsToNat(Complemented(Remainder(Dividend(data))))
  }
}
