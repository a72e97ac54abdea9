/** A uint64_t seen as its 64 bits, bit 0 first; shifts drop what leaves the word. */
module Word {
  const BITS: nat := 64

  type Word = w: seq<bool> | |w| == BITS witness seq(BITS, _ => false)

  const ZERO: Word := seq(BITS, _ => false)

  function Bits(w: Word): set<nat> {
    set i | 0 <= i < BITS && w[i]
  }

  function And(a: Word, b: Word): Word { seq(BITS, i requires 0 <= i < BITS => a[i] && b[i]) }
  function Or(a: Word, b: Word): Word { seq(BITS, i requires 0 <= i < BITS => a[i] || b[i]) }
  function Not(a: Word): Word { seq(BITS, i requires 0 <= i < BITS => !a[i]) }

  /** a << n */
  function Shl(a: Word, n: nat): Word requires n <= BITS {
    seq(n, _ => false) + a[..BITS - n]
  }

  /** a >> n */
  function Shr(a: Word, n: nat): Word requires n <= BITS {
    a[n..] + seq(n, _ => false)
  }

  /** 1ULL << n */
  function One(n: nat): Word requires n < BITS {
    seq(BITS, i => i == n)
  }

  /** (1ULL << n) - 1 */
  function LowMask(n: nat): Word requires n <= BITS {
    seq(BITS, i => i < n)
  }

  function Pow2(n: nat): nat { if n == 0 then 1 else 2 * Pow2(n - 1) }

  /** The number a sequence of bits stands for. */
  function Number(w: seq<bool>): nat {
    if w == [] then 0 else (if w[0] then 1 else 0) + 2 * Number(w[1..])
  }

  lemma {:induction false} NumberOfLowMask(len: nat, n: nat)
    requires n <= len
    ensures Number(seq(len, i => i < n)) == Pow2(n) - 1
  {
    var w := seq(len, i => i < n);
    if len > 0 {
      if n == 0 {
        assert w[1..] == seq(len - 1, i => i < n);
        NumberOfLowMask(len - 1, 0);
      } else {
        assert w[1..] == seq(len - 1, i => i < n - 1);
        NumberOfLowMask(len - 1, n - 1);
      }
    }
  }

  lemma {:induction false} NumberOfOne(len: nat, n: nat)
    requires n < len
    ensures Number(seq(len, i => i == n)) == Pow2(n)
  {
    var w := seq(len, i => i == n);
    if n == 0 {
      assert w[1..] == seq(len - 1, i => i < 0);
      NumberOfLowMask(len - 1, 0);
    } else {
      assert w[1..] == seq(len - 1, i => i == n - 1);
      NumberOfOne(len - 1, n - 1);
    }
  }

  /** The mask really is the power of two less one, in 64-bit arithmetic. */
  lemma LowMaskIsPowerLessOne(n: nat)
    requires n < BITS
    ensures Number(LowMask(n)) == Number(One(n)) - 1
  {
    NumberOfLowMask(BITS, n);
    NumberOfOne(BITS, n);
  }

  /** _tzcnt_u64: number of zero bits below the lowest set bit, 64 for an empty word. */
  function Tzcnt(w: seq<bool>): (n: nat)
    ensures n <= |w|
    ensures forall i | 0 <= i < n :: !w[i]
    ensures n < |w| ==> w[n]
  {
    if w == [] || w[0] then 0 else 1 + Tzcnt(w[1..])
  }

  /** _lzcnt_u64: number of zero bits above the highest set bit. */
  function Lzcnt(w: seq<bool>): (n: nat)
    ensures n <= |w|
    ensures forall i | |w| - n <= i < |w| :: !w[i]
    ensures n < |w| ==> w[|w| - 1 - n]
  {
    if w == [] || w[|w| - 1] then 0 else 1 + Lzcnt(w[..|w| - 1])
  }

  // --- The nearest set bit ---

  /** r is the set bit nearest to pos; of two equally near ones, the left one. */
  predicate Nearest(bits: set<nat>, pos: nat, r: nat) {
    r in bits && forall b | b in bits ::
      && Distance(r, pos) <= Distance(b, pos)
      && (Distance(r, pos) == Distance(b, pos) ==> r <= b)
  }

  function Distance(a: nat, b: nat): nat {
    if a <= b then b - a else a - b
  }

  /** closest_set: looks at growing distance d, left before right. */
  function ClosestFrom(bits: set<nat>, pos: nat, d: nat): (r: nat)
    requires exists b :: b in bits && Distance(b, pos) < 64
    requires forall b | b in bits :: d <= Distance(b, pos)
    requires d < 64
    ensures Nearest(bits, pos, r)
    decreases 64 - d
  {
    if d <= pos && pos - d in bits then pos - d
    else if pos + d in bits then pos + d
    else
      assert forall b | b in bits :: Distance(b, pos) != d;
      ClosestFrom(bits, pos, d + 1)
  }

  lemma NearestUnique(bits: set<nat>, pos: nat, r: nat, r': nat)
    requires Nearest(bits, pos, r) && Nearest(bits, pos, r')
    ensures r == r'
  {
  }
}
