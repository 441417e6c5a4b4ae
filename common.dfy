// Types shared by every component of the lights system: bytes, optional
// values, the colour table and the number of light ids.
module Common {
  /** One byte on a wire, in a datagram or in a radio packet, as its value 0..255. */
  type byte = x: int | 0 <= x < 256

  /** A 16-bit unsigned value. */
  type uint16 = x: int | 0 <= x < 0x1_0000

  datatype Option<+T> = None | Some(value: T)

  /** Three data bytes of a radio packet. */
  type Data3 = s: seq<byte> | |s| == 3 witness [0, 0, 0]

  /** Light ids index a table of this many entries (id 0 is the base station). */
  const NUM_IDS: nat := 256

  /** One light's colour, one byte per channel. */
  datatype Color = Color(r: byte, g: byte, b: byte)

  function Min(a: int, b: int): int { if a <= b then a else b }

  function Pow2(n: nat): (p: nat)
    ensures p >= 1
  {
    if n == 0 then 1 else 2 * Pow2(n - 1)
  }

  /** Bitwise exclusive or of the low `n` bits of `a` and `b`. */
  function XorBits(a: nat, b: nat, n: nat): (r: nat)
    ensures r < Pow2(n)
  {
    if n == 0 then 0 else 2 * XorBits(a / 2, b / 2, n - 1) + (a % 2 + b % 2) % 2
  }

  /** `a ^ b` on bytes. */
  function Xor(a: byte, b: byte): byte
  {
    Pow2Eight();
    XorBits(a, b, 8)
  }

  /** Applying the same key twice gives back the low `n` bits. */
  lemma {:induction false} XorBitsInvolution(a: nat, k: nat, n: nat)
    ensures XorBits(XorBits(a, k, n), k, n) == a % Pow2(n)
  {
    if n > 0 {
      var q := XorBits(a / 2, k / 2, n - 1);
      var low := (a % 2 + k % 2) % 2;
      var x := XorBits(a, k, n);
      assert x == 2 * q + low;
      HalfOf(q, low);
      var y := XorBits(x, k, n);
      assert y == 2 * XorBits(q, k / 2, n - 1) + (low + k % 2) % 2;
      XorBitsInvolution(a / 2, k / 2, n - 1);
      BitTwice(a % 2, k % 2);
      DivModPow2(a, n);
    }
  }

  /** One bit, with the same key bit added twice. */
  lemma BitTwice(a: nat, k: nat)
    requires a < 2 && k < 2
    ensures ((a + k) % 2 + k) % 2 == a
  {
  }

  /** Halving `2 * q + r` for one bit `r`. */
  lemma HalfOf(q: nat, r: nat)
    requires r < 2
    ensures (2 * q + r) / 2 == q && (2 * q + r) % 2 == r
  {
  }

  lemma DivModPow2(a: nat, n: nat)
    requires n > 0
    ensures 2 * ((a / 2) % Pow2(n - 1)) + a % 2 == a % Pow2(n)
  {
    var p := Pow2(n - 1);
    var q := (a / 2) / p;
    var r := (a / 2) % p;
    assert a / 2 == q * p + r;
    assert a == 2 * (a / 2) + a % 2;
    assert a == q * (2 * p) + (2 * r + a % 2) by {
      assert 2 * (q * p) == q * (2 * p);
    }
    ModUnique(a, 2 * p, q, 2 * r + a % 2);
  }

  lemma ModUnique(a: nat, d: nat, q: nat, r: nat)
    requires d > 0 && a == q * d + r && r < d
    ensures a % d == r
  {
    var q2, r2 := a / d, a % d;
    assert a == q2 * d + r2;
    if q > q2 {
      MulAtLeast(q - q2, d);
      assert false;
    } else if q < q2 {
      MulAtLeast(q2 - q, d);
      assert false;
    }
  }

  lemma MulAtLeast(k: nat, d: nat)
    requires k >= 1
    ensures k * d >= d
  {
  }

  /** Bytes: `(a ^ k) ^ k == a`. */
  lemma XorInvolution(a: byte, k: byte)
    ensures Xor(Xor(a, k), k) == a
  {
    Pow2Eight();
    XorBitsInvolution(a, k, 8);
    assert a % Pow2(8) == a by {
      ModUnique(a, 256, 0, a);
    }
  }

  /** Concatenation is associative; called where a proof needs a sum regrouped. */
  lemma AppendAssoc<T>(a: seq<T>, b: seq<T>, c: seq<T>)
    ensures (a + b) + c == a + (b + c)
  {
  }

  /** Eight more bits multiply the range by 256. */
  lemma {:induction false} Pow2PlusEight(n: nat)
    ensures Pow2(n + 8) == 256 * Pow2(n)
  {
    if n == 0 {
      Pow2Eight();
    } else {
      Pow2PlusEight(n - 1);
    }
  }

  lemma Pow2Eight()
    ensures Pow2(8) == 256
  {
    assert Pow2(4) == 16;
  }
}
