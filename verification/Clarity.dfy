/** Values shared by every contract model: byte buffers, Clarity responses, little-endian numbers. */
module Clarity {

  newtype Byte = b: int | 0 <= b < 256
  type Bytes = seq<Byte>
  type Hash32 = h: Bytes | |h| == 32 witness seq(32, _ => 0)

  /** Largest value of Clarity's 128-bit uint. */
  const MAX_UINT: nat := 0xFFFF_FFFF_FFFF_FFFF_FFFF_FFFF_FFFF_FFFF

  datatype Option<+T> = None | Some(value: T)

  /** A Clarity response, plus `Abort` for a runtime panic (`unwrap-panic`, arithmetic overflow). */
  datatype Outcome<+T> = Ok(value: T) | Err(code: nat) | Abort {
    predicate IsFailure() {
      !Ok?
    }

    function PropagateFailure<U>(): Outcome<U>
      requires IsFailure()
    {
      if Err? then Err(code) else Abort
    }

    function Extract(): T
      requires Ok?
    {
      value
    }

    /** `unwrap-panic`: an error response becomes a runtime panic. */
    function UnwrapPanic(): Outcome<T> {
      if Ok? then this else Abort
    }
  }

  /** `slice?`: none when a bound is outside the buffer or the bounds are crossed. */
  function Slice(b: Bytes, left: nat, right: nat): Option<Bytes> {
    if left <= right <= |b| then Some(b[left..right]) else None
  }

  function Reverse(b: Bytes): Bytes {
    seq(|b|, i requires 0 <= i < |b| => b[|b| - 1 - i])
  }

  lemma ReverseInvolutive(b: Bytes)
    ensures |Reverse(b)| == |b|
    ensures Reverse(Reverse(b)) == b
  {
  }

  /** `b` holds the bytes `s` at offset `i`. */
  ghost predicate Has(b: Bytes, i: nat, s: Bytes) {
    i + |s| <= |b| && b[i..i + |s|] == s
  }

  lemma HasConcat(b: Bytes, i: nat, s: Bytes, t: Bytes)
    ensures Has(b, i, s + t) <==> Has(b, i, s) && Has(b, i + |s|, t)
  {
    if Has(b, i, s + t) {
      assert b[i..i + |s|] == b[i..i + |s + t|][..|s|] == s;
      assert b[i + |s|..i + |s| + |t|] == b[i..i + |s + t|][|s|..] == t;
    }
    if Has(b, i, s) && Has(b, i + |s|, t) {
      assert b[i..i + |s + t|] == b[i..i + |s|] + b[i + |s|..i + |s| + |t|];
    }
  }

  /** Looking inside a window of `b` that holds a copy of a window of `a`. */
  lemma HasWindow(a: Bytes, lo: nat, hi: nat, b: Bytes, i: nat, from: nat, to: nat)
    requires lo <= from <= to <= hi <= |a|
    requires Has(b, i, a[lo..hi])
    ensures Has(b, i + from - lo, a[from..to])
  {
    var j := i + from - lo;
    forall k | 0 <= k < to - from
      ensures b[j..j + (to - from)][k] == a[from..to][k]
    {
      assert b[i..i + (hi - lo)][from - lo + k] == a[lo..hi][from - lo + k];
    }
  }

  /** `buff-to-uint-le`. */
  function FromLE(b: Bytes): nat {
    if b == [] then 0 else b[0] as nat + 256 * FromLE(b[1..])
  }

  function ToLE(v: nat, n: nat): (r: Bytes)
    ensures |r| == n
    decreases n
  {
    if n == 0 then [] else [(v % 256) as Byte] + ToLE(v / 256, n - 1)
  }

  function Pow256(n: nat): (r: nat)
    ensures r >= 1
  {
    if n == 0 then 1 else 256 * Pow256(n - 1)
  }

  lemma {:induction false} FromLEBound(b: Bytes)
    ensures FromLE(b) < Pow256(|b|)
  {
    if b != [] {
      FromLEBound(b[1..]);
    }
  }

  lemma {:induction false} FromToLE(v: nat, n: nat)
    requires v < Pow256(n)
    ensures FromLE(ToLE(v, n)) == v
    decreases n
  {
    if n > 0 {
      FromToLE(v / 256, n - 1);
      assert ToLE(v, n)[1..] == ToLE(v / 256, n - 1);
    }
  }

  lemma {:induction false} ToFromLE(b: Bytes)
    ensures ToLE(FromLE(b), |b|) == b
  {
    if b != [] {
      ToFromLE(b[1..]);
      assert FromLE(b) % 256 == b[0] as nat && FromLE(b) / 256 == FromLE(b[1..]);
    }
  }

  lemma Pow256Values()
    ensures Pow256(1) == 0x100
    ensures Pow256(2) == 0x1_0000
    ensures Pow256(4) == 0x1_0000_0000
    ensures Pow256(8) == 0x1_0000_0000_0000_0000
  {
    assert Pow256(2) == 256 * Pow256(1);
    assert Pow256(4) == 256 * Pow256(3) && Pow256(3) == 256 * Pow256(2);
    assert Pow256(6) == 256 * Pow256(5) && Pow256(5) == 256 * Pow256(4);
    assert Pow256(8) == 256 * Pow256(7) && Pow256(7) == 256 * Pow256(6);
  }

  lemma SubsetSize<T>(a: set<T>, b: set<T>)
    requires a <= b
    ensures |a| <= |b| && (|a| == |b| ==> a == b)
  {
    assert b == a + (b - a);
    if a != b {
      assert b - a != {};
    }
  }
}
