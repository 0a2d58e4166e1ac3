/**
  The 64-bit words of common.hpp. A word (`index_t`, used as a bit mask) is
  modelled by its 64 bits: bit i of the word is `w[i]`. The bitwise operators the
  core applies (`|`, `&`, `~`, `1ULL << i`) act bit by bit, so they are exact on
  this representation; the sign of `index_t` plays no part in them.
  `Members` is the set of vertices a mask holds, and every other module reasons
  about masks through it.
*/
module Bits {

  /** n clear bits. */
  function Zeros(n: nat): (r: seq<bool>)
    ensures |r| == n && forall i :: 0 <= i < n ==> !r[i]
  {
    if n == 0 then [] else Zeros(n - 1) + [false]
  }

  /** A 64-bit word, least significant bit first. */
  type Word = w: seq<bool> | |w| == 64 witness Zeros(64)

  /** The word 0. */
  const Zero: Word := Zeros(64)

  function Or(x: Word, y: Word): Word
  {
    seq(64, i requires 0 <= i < 64 => x[i] || y[i])
  }

  function And(x: Word, y: Word): Word
  {
    seq(64, i requires 0 <= i < 64 => x[i] && y[i])
  }

  function Not(x: Word): Word
  {
    seq(64, i requires 0 <= i < 64 => !x[i])
  }

  /** `1ULL << i`: the word with only bit i set. */
  function Bit(i: nat): Word
    requires i < 64
  {
    seq(64, j => j == i)
  }

  /** `bittest64(x, i)` with its intended 64-bit meaning: `x & (1ULL << i) != 0`. */
  predicate BitTest(x: Word, i: nat)
    requires i < 64
  {
    And(x, Bit(i)) != Zero
  }

  /** The indices of the set bits of x. */
  ghost function Members(x: Word): set<nat>
  {
    set i: nat | i < 64 && x[i]
  }

  /** Number of set bits of x among the indices below k. */
  function PopCountBelow(x: Word, k: nat): (r: nat)
    requires k <= 64
    ensures r <= k
  {
    if k == 0 then 0 else PopCountBelow(x, k - 1) + (if x[k - 1] then 1 else 0)
  }

  /** `popcount64(x)`: the number of set bits of x. */
  function PopCount(x: Word): (r: nat)
    ensures r == |Members(x)|
    ensures r <= 64
  {
    MembersBelowCard(x, 64);
    PopCountBelow(x, 64)
  }

  /** Index of the lowest set bit of x at or above k. */
  function CtzFrom(x: Word, k: nat): (r: nat)
    requires k < 64
    requires exists j :: k <= j < 64 && x[j]
    ensures k <= r < 64 && x[r]
    ensures forall j :: k <= j < r ==> !x[j]
    decreases 64 - k
  {
    if x[k] then k else CtzFrom(x, k + 1)
  }

  /** `ctz64(x)`: the index of the lowest set bit; the builtin is undefined for 0. */
  function Ctz(x: Word): (r: nat)
    requires x != Zero
    ensures r in Members(x)
    ensures forall j :: j in Members(x) ==> r <= j
  {
    NonZeroHasBit(x);
    CtzFrom(x, 0)
  }

  // ---------------------------------------------------------------------------
  // Facts about the operations, stated through Members

  /** `bittest64` tests exactly membership. */
  lemma BitTestMembers(x: Word, i: nat)
    requires i < 64
    ensures BitTest(x, i) <==> i in Members(x)
  {
    if x[i] {
      assert And(x, Bit(i))[i] != Zero[i];
    } else {
      assert And(x, Bit(i)) == Zero;
    }
  }

  /** Setting bit i adds exactly i to the members. */
  lemma MembersSet(x: Word, i: nat)
    requires i < 64
    ensures Members(Or(x, Bit(i))) == Members(x) + {i}
  {
  }

  /** Clearing bit i removes exactly i from the members. */
  lemma MembersClear(x: Word, i: nat)
    requires i < 64
    ensures Members(And(x, Not(Bit(i)))) == Members(x) - {i}
  {
  }

  lemma MembersBit(i: nat)
    requires i < 64
    ensures Members(Bit(i)) == {i}
  {
  }

  /** A word is zero iff it holds no member. */
  lemma MembersEmpty(x: Word)
    ensures Members(x) == {} <==> x == Zero
  {
    if x != Zero {
      NonZeroHasBit(x);
      var j :| 0 <= j < 64 && x[j];
      assert j in Members(x);
    }
  }

  /** Two words with the same members are equal. */
  lemma MembersInjective(x: Word, y: Word)
    requires Members(x) == Members(y)
    ensures x == y
  {
    forall i | 0 <= i < 64
      ensures x[i] == y[i]
    {
      assert x[i] <==> i in Members(x);
      assert y[i] <==> i in Members(y);
    }
  }

  /** Every member is below 64. */
  lemma MembersBound(x: Word)
    ensures forall i :: i in Members(x) ==> i < 64
  {
  }

  lemma NonZeroHasBit(x: Word)
    requires x != Zero
    ensures exists j :: 0 <= j < 64 && x[j]
  {
    var j :| 0 <= j < 64 && x[j] != Zero[j];
  }

  lemma {:induction false} MembersBelowCard(x: Word, k: nat)
    requires k <= 64
    ensures |set i: nat | i < k && x[i]| == PopCountBelow(x, k)
  {
    if k > 0 {
      MembersBelowCard(x, k - 1);
      var below := set i: nat | i < k - 1 && x[i];
      if x[k - 1] {
        assert (set i: nat | i < k && x[i]) == below + {k - 1};
      } else {
        assert (set i: nat | i < k && x[i]) == below;
      }
    }
  }

  /**
    Clearing the lowest set bit of a non-zero word removes exactly that member,
    so the population count drops by one; the neighbour loops of graph.hpp
    terminate because of this.
  */
  lemma PopCountClearLowest(x: Word)
    requires x != Zero
    ensures Members(And(x, Not(Bit(Ctz(x))))) == Members(x) - {Ctz(x)}
    ensures PopCount(And(x, Not(Bit(Ctz(x))))) == PopCount(x) - 1
  {
    var c := Ctz(x);
    MembersClear(x, c);
  }

  // ---------------------------------------------------------------------------
  // The shifts as written in the source: `1 << idx` on a 32-bit `int`

  /** A 32-bit `int`, least significant bit first; bit 31 is the sign. */
  type Int32 = w: seq<bool> | |w| == 32 witness Zeros(32)

  /** `1 << idx` on a 32-bit int; shifts of 32 or more are undefined in C++. */
  function IntShl(idx: nat): Int32
    requires idx < 32
  {
    seq(32, j => j == idx)
  }

  function IntNot(x: Int32): Int32
  {
    seq(32, i requires 0 <= i < 32 => !x[i])
  }

  /** Conversion of an int to the 64-bit `index_t` operand: sign extension. */
  function Widen(x: Int32): Word
  {
    seq(64, i requires 0 <= i < 64 => if i < 32 then x[i] else x[31])
  }

  /** The GCC branch of `bittest64`: `x & (1 << idx)`, the shift done on an int. */
  predicate BitTestAsWritten(x: Word, idx: nat)
    requires idx < 32
  {
    And(x, Widen(IntShl(idx))) != Zero
  }

  /** `x &= ~(1 << iter)` of the neighbour loops, the shift and `~` done on an int. */
  function ClearAsWritten(x: Word, idx: nat): Word
    requires idx < 32
  {
    And(x, Widen(IntNot(IntShl(idx))))
  }

  /** Below bit 31 the int shifts agree with the 64-bit ones. */
  lemma AsWrittenAgreesBelow31(x: Word, idx: nat)
    requires idx < 31
    ensures BitTestAsWritten(x, idx) == BitTest(x, idx)
    ensures ClearAsWritten(x, idx) == And(x, Not(Bit(idx)))
  {
    assert Widen(IntShl(idx)) == Bit(idx);
    assert Widen(IntNot(IntShl(idx))) == Not(Bit(idx));
  }

  /**
    At bit 31 the as-written test also sees bits 32..63: a word holding only
    bit 40 tests positive for bit 31.
  */
  lemma BitTestAsWrittenAt31()
    ensures BitTestAsWritten(Bit(40), 31)
    ensures !BitTest(Bit(40), 31)
  {
    assert And(Bit(40), Widen(IntShl(31)))[40];
    BitTestMembers(Bit(40), 31);
  }

  /**
    At bit 31 the as-written clear also wipes bits 32..63: from the neighbour
    mask {31, 40}, clearing 31 leaves nothing instead of {40}.
  */
  lemma ClearAsWrittenAt31()
    ensures Members(ClearAsWritten(Or(Bit(31), Bit(40)), 31)) == {}
    ensures Members(And(Or(Bit(31), Bit(40)), Not(Bit(31)))) == {40}
  {
  }
}
