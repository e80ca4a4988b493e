/** Bytes, and exclusive or on the integers they are. */
module Bytes {
  type byte = x: int | 0 <= x < 0x100
  type word = x: int | 0 <= x < 0x1_0000
  type bytes = seq<byte>

  datatype Option<+T> = None | Some(value: T)

  /** Two bytes, most significant first. */
  function Word(hi: byte, lo: byte): word {
    0x100 * hi + lo
  }

  /** The bytes of every part, in order. */
  function Join(parts: seq<bytes>): bytes {
    if parts == [] then [] else parts[0] + Join(parts[1..])
  }

  /** One value over and over. */
  function Copies<T>(value: T, n: nat): (s: seq<T>)
    ensures |s| == n && forall i :: 0 <= i < n ==> s[i] == value
  {
    seq(n, _ => value)
  }

  lemma {:induction false} SliceOfDrop<T>(s: seq<T>, w: nat, from: nat, to: nat)
    requires from <= to && w + to <= |s|
    ensures s[w..][from..to] == s[w + from..w + to]
  {
  }

  lemma {:induction false} ReplaceNext<T>(done: seq<T>, rest: seq<T>, x: T)
    requires rest != []
    ensures (done + rest)[|done| := x] == done + ([x] + rest[1..]) == done + [x] + rest[1..]
  {
  }

  lemma {:induction false} JoinAppend(a: seq<bytes>, b: seq<bytes>)
    ensures Join(a + b) == Join(a) + Join(b)
  {
    if a == [] {
      assert a + b == b;
    } else {
      assert (a + b)[1..] == a[1..] + b;
      JoinAppend(a[1..], b);
    }
  }

  /** `x` shifted `n` places up; Up(n, 1) is the n-th power of two. */
  function Up(n: nat, x: nat): (r: nat)
    ensures r >= x
  {
    if n == 0 then x else 2 * Up(n - 1, x)
  }

  lemma {:induction false} Powers()
    ensures Up(8, 1) == 0x100 && Up(15, 1) == 0x8000 && Up(16, 1) == 0x1_0000
  {
    assert Up(4, 1) == 0x10;
    assert Up(8, 1) == 0x10 * Up(4, 1);
    assert Up(12, 1) == 0x10 * Up(8, 1);
  }

  lemma {:induction false} UpMonotone(n: nat, m: nat)
    requires n <= m
    ensures Up(n, 1) <= Up(m, 1)
    decreases m
  {
    if n < m {
      UpMonotone(n, m - 1);
    }
  }

  lemma {:induction false} UpDouble(n: nat, x: nat)
    ensures Up(n, 2 * x) == 2 * Up(n, x)
  {
    if n > 0 {
      UpDouble(n - 1, x);
    }
  }

  lemma {:induction false} UpCompose(n: nat, m: nat, x: nat)
    ensures Up(n + m, x) == Up(n, Up(m, x))
  {
    if n > 0 {
      UpCompose(n - 1, m, x);
    }
  }

  lemma {:induction false} UpByte(x: nat)
    ensures Up(8, x) == 0x100 * x
  {
    assert Up(1, x) == 2 * x;
    assert Up(3, x) == 4 * Up(1, x);
    assert Up(5, x) == 4 * Up(3, x);
    assert Up(7, x) == 4 * Up(5, x);
  }

  function Xor(a: nat, b: nat): nat {
    if a == 0 && b == 0 then 0
    else 2 * Xor(a / 2, b / 2) + (if a % 2 == b % 2 then 0 else 1)
  }

  lemma {:induction false} XorBelow(n: nat, a: nat, b: nat)
    requires a < Up(n, 1) && b < Up(n, 1)
    ensures Xor(a, b) < Up(n, 1)
  {
    if n > 0 {
      XorBelow(n - 1, a / 2, b / 2);
    }
  }

  lemma {:induction false} XorCommutes(a: nat, b: nat)
    ensures Xor(a, b) == Xor(b, a)
    decreases a + b
  {
    if a != 0 || b != 0 {
      XorCommutes(a / 2, b / 2);
    }
  }

  lemma {:induction false} XorAssociates(a: nat, b: nat, c: nat)
    ensures Xor(Xor(a, b), c) == Xor(a, Xor(b, c))
    decreases a + b + c
  {
    if a != 0 || b != 0 || c != 0 {
      XorAssociates(a / 2, b / 2, c / 2);
    }
  }

  lemma {:induction false} XorCancels(a: nat, b: nat)
    ensures Xor(a, 0) == a
    ensures Xor(a, b) == 0 <==> a == b
    decreases a + b
  {
    if a != 0 || b != 0 {
      XorCancels(a / 2, b / 2);
    }
  }

  lemma {:induction false} XorUndoes(a: nat, b: nat)
    ensures Xor(Xor(a, b), b) == a
  {
    XorAssociates(a, b, b);
    XorCancels(b, b);
    XorCancels(a, 0);
  }

  lemma {:induction false} XorInterchange(a: nat, b: nat, c: nat, d: nat)
    ensures Xor(Xor(a, b), Xor(c, d)) == Xor(Xor(a, c), Xor(b, d))
  {
    XorAssociates(a, b, Xor(c, d));
    XorAssociates(b, c, d);
    XorCommutes(b, c);
    XorAssociates(c, b, d);
    XorAssociates(a, c, Xor(b, d));
  }

  /** Bits that do not overlap add. */
  lemma {:induction false} XorAdds(n: nat, high: nat, low: nat)
    requires low < Up(n, 1)
    ensures Xor(Up(n, high), low) == Up(n, high) + low
  {
    if n == 0 {
      XorCancels(high, 0);
    } else {
      XorAdds(n - 1, high, low / 2);
    }
  }

  // Bits, numbered from the least significant.

  predicate Bit(x: nat, k: nat) {
    if k == 0 then x % 2 == 1 else Bit(x / 2, k - 1)
  }

  lemma {:induction false} BitOfXor(a: nat, b: nat, k: nat)
    ensures Bit(Xor(a, b), k) == (Bit(a, k) != Bit(b, k))
  {
    if k > 0 {
      BitOfXor(a / 2, b / 2, k - 1);
    }
  }

  lemma {:induction false} LowBitsClear(x: nat, n: nat) returns (rest: nat)
    requires forall k :: 0 <= k < n ==> !Bit(x, k)
    ensures x == Up(n, rest)
  {
    if n == 0 {
      rest := x;
    } else {
      assert !Bit(x, 0);
      forall k | 0 <= k < n - 1 ensures !Bit(x / 2, k) {
        assert !Bit(x, k + 1);
      }
      rest := LowBitsClear(x / 2, n - 1);
    }
  }

  lemma {:induction false} HighBitsClear(x: nat, n: nat, top: nat)
    requires n <= top && x < Up(top, 1)
    requires forall k :: n <= k < top ==> !Bit(x, k)
    ensures x < Up(n, 1)
  {
    if n == 0 && top > 0 {
      assert !Bit(x, 0);
    }
    if top > 0 {
      forall k | (if n == 0 then 0 else n - 1) <= k < top - 1 ensures !Bit(x / 2, k) {
        assert !Bit(x, k + 1);
      }
      HighBitsClear(x / 2, if n == 0 then 0 else n - 1, top - 1);
    }
  }

  /** Whether an odd number of bits are set. */
  predicate OddBits(x: nat) {
    if x == 0 then false else (x % 2 == 1) != OddBits(x / 2)
  }

  lemma {:induction false} OddBitsOfXor(a: nat, b: nat)
    ensures OddBits(Xor(a, b)) == (OddBits(a) != OddBits(b))
    decreases a + b
  {
    if a != 0 || b != 0 {
      OddBitsOfXor(a / 2, b / 2);
    }
  }

  /** How many bits are set. */
  function Ones(x: nat): nat {
    if x == 0 then 0 else x % 2 + Ones(x / 2)
  }

  lemma {:induction false} OddBitsCountsOnes(x: nat)
    ensures OddBits(x) <==> Ones(x) % 2 == 1
  {
    if x > 0 {
      OddBitsCountsOnes(x / 2);
    }
  }

  lemma {:induction false} ZeroHasNoBits(k: nat)
    ensures !Bit(0, k)
  {
    if k > 0 {
      ZeroHasNoBits(k - 1);
    }
  }
}
