/** The `$sequence` attribute: block, transaction and operation numbers packed into 64 bits. */
module Sequence {
  import opened Base

  function Power2(w: nat): nat {
    if w == 0 then 1 else 2 * Power2(w - 1)
  }

  /** Bitwise or of two w-bit numbers. */
  function BitOr(a: nat, b: nat, w: nat): (r: nat)
    requires a < Power2(w) && b < Power2(w)
    ensures r < Power2(w)
  {
    if w == 0 then 0
    else (if a % 2 == 1 || b % 2 == 1 then 1 else 0) + 2 * BitOr(a / 2, b / 2, w - 1)
  }

  lemma Power2Plus8(b: nat)
    ensures Power2(b + 8) == 256 * Power2(b)
  {
    assert Power2(b + 2) == 4 * Power2(b);
    assert Power2(b + 4) == 4 * Power2(b + 2);
    assert Power2(b + 6) == 4 * Power2(b + 4);
    assert Power2(b + 8) == 4 * Power2(b + 6);
  }

  lemma Width64()
    ensures Power2(16) == TWO16 && Power2(32) == TWO32 && Power2(64) == TWO64
  {
    Power2Plus8(0);
    Power2Plus8(8);
    Power2Plus8(16);
    Power2Plus8(24);
    Power2Plus8(32);
    Power2Plus8(40);
    Power2Plus8(48);
    Power2Plus8(56);
  }

  /** x << bits in 64 bits: what is shifted out is lost. */
  function ShiftLeft(x: uint64, bits: nat): uint64 {
    (x * Power2(bits)) % TWO64
  }

  function Or64(a: uint64, b: uint64): uint64 {
    Width64();
    BitOr(a, b, 64)
  }

  function Pack(block: uint64, tx: uint64, op: uint64): uint64 {
    Or64(Or64(ShiftLeft(block, 32), ShiftLeft(tx, 16)), op)
  }

  /** Or-ing in fewer bits than are known to be zero is addition. */
  lemma {:induction false} OrDisjoint(a: nat, b: nat, k: nat, w: nat)
    requires a < Power2(w) && b < Power2(w)
    requires k <= w && b < Power2(k) && a % Power2(k) == 0
    ensures BitOr(a, b, w) == a + b
  {
    if k == 0 {
      OrZero(a, w);
    } else {
      HalfOfMultiple(a, Power2(k - 1));
      OrDisjoint(a / 2, b / 2, k - 1, w - 1);
    }
  }

  lemma {:induction false} OrZero(a: nat, w: nat)
    requires a < Power2(w) && 0 < Power2(w)
    ensures BitOr(a, 0, w) == a
  {
    if w > 0 {
      PositivePower(w - 1);
      OrZero(a / 2, w - 1);
    }
  }

  lemma {:induction false} PositivePower(w: nat)
    ensures Power2(w) > 0
  {
    if w > 0 {
      PositivePower(w - 1);
    }
  }

  lemma HalfOfMultiple(a: nat, m: nat)
    requires m > 0 && a % (2 * m) == 0
    ensures a % 2 == 0 && (a / 2) % m == 0
  {
    var q := a / (2 * m);
    assert a == 2 * (m * q);
    assert a / 2 == m * q;
    MultipleMod(m, q);
  }

  lemma MultipleAtLeast(m: int, k: int)
    requires m >= 0
    ensures k >= 1 ==> m * k >= m
    ensures k <= -1 ==> m * k <= -m
  {
  }

  lemma MultipleMod(m: nat, q: nat)
    requires m > 0
    ensures (m * q) % m == 0
  {
    var d, r := (m * q) / m, (m * q) % m;
    assert m * q == m * d + r;
    assert r == m * (q - d);
    MultipleAtLeast(m, q - d);
  }

  predicate InBounds(block: uint64, tx: uint64, op: uint64) {
    block < TWO32 && tx < TWO16 && op < TWO16
  }

  lemma ShiftIsProduct(x: uint64, m: nat, bits: nat)
    requires m == Power2(bits) && x * m < TWO64
    ensures ShiftLeft(x, bits) == x * m
  {
  }

  /** Or64 of a multiple of 2^k and a number below 2^k is their sum. */
  lemma OrIsSum(a: uint64, k: nat, b: uint64)
    requires k <= 64 && b < Power2(k) && a % Power2(k) == 0
    ensures Or64(a, b) == a + b
  {
    Width64();
    OrDisjoint(a, b, k, 64);
  }

  lemma PackIsSum(block: uint64, tx: uint64, op: uint64)
    requires InBounds(block, tx, op)
    ensures Pack(block, tx, op) == block * TWO32 + tx * TWO16 + op
  {
    Width64();
    ShiftIsProduct(block, TWO32, 32);
    ShiftIsProduct(tx, TWO16, 16);
    var high := TWO32 * block;
    MultipleMod(TWO32, block);
    OrIsSum(high, 32, tx * TWO16);
    var both := high + tx * TWO16;
    assert both == TWO16 * (block * TWO16 + tx);
    MultipleMod(TWO16, block * TWO16 + tx);
    OrIsSum(both, 16, op);
  }

  /** Position (block, tx, op) comes before (block', tx', op'). */
  predicate Earlier(block: uint64, tx: uint64, op: uint64, block': uint64, tx': uint64, op': uint64) {
    block < block' || (block == block' && (tx < tx' || (tx == tx' && op < op')))
  }

  /** Packing is injective and strictly monotone while the three numbers fit their fields. */
  lemma PackMonotone(block: uint64, tx: uint64, op: uint64, block': uint64, tx': uint64, op': uint64)
    requires InBounds(block, tx, op) && InBounds(block', tx', op')
    ensures Earlier(block, tx, op, block', tx', op') <==> Pack(block, tx, op) < Pack(block', tx', op')
  {
    PackIsSum(block, tx, op);
    PackIsSum(block', tx', op');
  }

  /** Packing keeps the order of the two positions, whichever comes first. */
  predicate OrderKept(block: uint64, tx: uint64, op: uint64, block': uint64, tx': uint64, op': uint64) {
    && (Earlier(block, tx, op, block', tx', op') <==> Pack(block, tx, op) < Pack(block', tx', op'))
    && (Earlier(block', tx', op', block, tx, op) <==> Pack(block', tx', op') < Pack(block, tx, op))
  }

  /** Every number is packed from a position in bounds. */
  lemma Unpack(v: uint64) returns (block: uint64, tx: uint64, op: uint64)
    ensures InBounds(block, tx, op) && Pack(block, tx, op) == v
  {
    var high: nat := v / TWO16;
    assert v == high * TWO16 + v % TWO16;
    assert high < TWO32 * TWO16;
    var b: nat := high / TWO16;
    assert high == b * TWO16 + high % TWO16 && b < TWO32;
    block, tx, op := b, high % TWO16, v % TWO16;
    PackIsSum(block, tx, op);
  }

  /**
   * The field widths are exact: a position keeps its order relative to every
   * position in bounds iff it is in bounds itself.
   */
  lemma InBoundsExactly(block: uint64, tx: uint64, op: uint64)
    ensures InBounds(block, tx, op) <==>
            forall b: uint64, t: uint64, o: uint64 | InBounds(b, t, o) :: OrderKept(block, tx, op, b, t, o)
  {
    if InBounds(block, tx, op) {
      forall b: uint64, t: uint64, o: uint64 | InBounds(b, t, o)
        ensures OrderKept(block, tx, op, b, t, o)
      {
        PackMonotone(block, tx, op, b, t, o);
        PackMonotone(b, t, o, block, tx, op);
      }
    } else {
      var b, t, o := Unpack(Pack(block, tx, op));
      assert Earlier(block, tx, op, b, t, o) || Earlier(b, t, o, block, tx, op);
      assert !OrderKept(block, tx, op, b, t, o);
    }
  }

  lemma OrWithZero(b: uint64)
    ensures Or64(0, b) == b
  {
    Width64();
    PositivePower(64);
    OrIsSum(0, 64, b);
  }

  /** One past the 16-bit operation field the order is lost: (0, 0, 65536) packs like (0, 1, 0). */
  lemma PackOverflowExample()
    ensures Earlier(0, 0, 0x1_0000, 0, 1, 0) && Pack(0, 0, 0x1_0000) == Pack(0, 1, 0)
  {
    PackIsSum(0, 1, 0);
    Width64();
    ShiftIsProduct(0, TWO32, 32);
    ShiftIsProduct(0, TWO16, 16);
    OrWithZero(0);
    OrWithZero(0x1_0000);
  }
}
