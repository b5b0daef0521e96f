/** The element seen once among triples, found with two bit masks
    (bit_manipulation/single_number.rs). */
module SingleNumber {

  /** An `i32` as its 32 two's-complement bits. The loop uses only bitwise operators,
      which act on every bit position independently. */
  type Word = w: seq<bool> | |w| == 32 witness seq(32, i => false)

  function Zero(): Word { seq(32, i => false) }

  function Xor(a: Word, b: Word): Word { seq(32, i requires 0 <= i < 32 => a[i] != b[i]) }

  function And(a: Word, b: Word): Word { seq(32, i requires 0 <= i < 32 => a[i] && b[i]) }

  function Not(a: Word): Word { seq(32, i requires 0 <= i < 32 => !a[i]) }

  /** The loop's two masks: bit `i` of `once` (`twice`) is set when bit `i` has been seen
      once (twice) modulo three. */
  datatype Counter = Counter(once: Word, twice: Word)

  /** One round of the loop body. Whatever the masks held before, no bit is set in both
      afterwards. */
  function Absorb(c: Counter, num: Word): (r: Counter)
    ensures forall i :: 0 <= i < 32 ==> !(r.once[i] && r.twice[i])
  {
    var once := And(Xor(c.once, num), Not(c.twice));
    Counter(once, And(Xor(c.twice, num), Not(once)))
  }

  /** Number of words in `nums` with bit `i` set. */
  function CountBit(nums: seq<Word>, i: nat): nat
    requires i < 32
  {
    if |nums| == 0 then 0
    else CountBit(nums[..|nums| - 1], i) + (if nums[|nums| - 1][i] then 1 else 0)
  }

  /** Bit `i` of the masks encodes `count` modulo three as (0,0), (1,0) or (0,1). */
  predicate Encodes(c: Counter, i: nat, count: nat)
    requires i < 32
  {
    c.once[i] == (count % 3 == 1) && c.twice[i] == (count % 3 == 2)
  }

  /** The masks after the loop has absorbed every word of `nums`, in order. */
  function Scan(nums: seq<Word>): (c: Counter)
    ensures forall i :: 0 <= i < 32 ==> Encodes(c, i, CountBit(nums, i))
  {
    if |nums| == 0 then Counter(Zero(), Zero())
    else Absorb(Scan(nums[..|nums| - 1]), nums[|nums| - 1])
  }

  /** `single_number`: the `once` mask after the scan. Bit `i` of the result is set exactly
      when the number of inputs with bit `i` set is one more than a multiple of three. */
  function SingleNumber(nums: seq<Word>): (r: Word)
    ensures |nums| == 0 ==> r == Zero()
    ensures forall i :: 0 <= i < 32 ==> (r[i] <==> CountBit(nums, i) % 3 == 1)
  {
    Scan(nums).once
  }

  lemma {:induction false} CountBitAppend(a: seq<Word>, b: seq<Word>, i: nat)
    requires i < 32
    ensures CountBit(a + b, i) == CountBit(a, i) + CountBit(b, i)
    decreases |b|
  {
    if |b| == 0 {
      assert a + b == a;
    } else {
      assert (a + b)[..|a + b| - 1] == a + b[..|b| - 1];
      CountBitAppend(a, b[..|b| - 1], i);
    }
  }

  /** Reordering the input does not change how many words have a given bit set. */
  lemma {:induction false} CountBitPermutation(s: seq<Word>, u: seq<Word>, i: nat)
    requires i < 32
    requires multiset(s) == multiset(u)
    ensures CountBit(s, i) == CountBit(u, i)
    decreases |s|
  {
    if |s| == 0 {
      assert |u| == |multiset(u)| == 0;
    } else {
      var x := s[|s| - 1];
      assert x in multiset(u);
      var j :| 0 <= j < |u| && u[j] == x;
      var rest := u[..j] + u[j + 1..];
      assert u == u[..j] + [x] + u[j + 1..];
      assert s == s[..|s| - 1] + [x];
      assert multiset(s[..|s| - 1]) == multiset(rest) by {
        assert multiset(s) == multiset(s[..|s| - 1]) + multiset{x};
        assert multiset(u) == multiset(rest) + multiset{x};
        assert multiset(s[..|s| - 1]) == multiset(s) - multiset{x};
        assert multiset(rest) == multiset(u) - multiset{x};
      }
      CountBitPermutation(s[..|s| - 1], rest, i);
      CountBitAppend(u[..j] + [x], u[j + 1..], i);
      CountBitAppend(u[..j], [x], i);
      CountBitAppend(u[..j], u[j + 1..], i);
      assert CountBit([x], i) == (if x[i] then 1 else 0) by {
        assert [x][..0] == [];
      }
    }
  }

  /** If the input is, in some order, one word `x` and three copies of every word of `t`,
      the result is `x`. */
  lemma SingleNumberFindsSingle(nums: seq<Word>, x: Word, t: seq<Word>)
    requires multiset(nums) == multiset([x] + t + t + t)
    ensures SingleNumber(nums) == x
  {
    var r := SingleNumber(nums);
    forall i | 0 <= i < 32 ensures r[i] == x[i] {
      CountBitPermutation(nums, [x] + t + t + t, i);
      CountBitAppend([x] + t + t, t, i);
      CountBitAppend([x] + t, t, i);
      CountBitAppend([x], t, i);
      assert CountBit([x], i) == (if x[i] then 1 else 0) by {
        assert [x][..0] == [];
      }
    }
  }
}
