/**
 * The distinct-letter content of a word, kept as a 32-bit mask whose bit `i`
 * stands for the letter `'a' + i` (src/main.rs, `struct LetterSet(u32)`).
 *
 * `Members` is the abstraction: the set of bit positions that are set. Every
 * operation is specified through it.
 */
module LetterSets {
  import opened Wrappers

  datatype LetterSet = LetterSet(bits: bv32)

  /** Bit `i` of `b` is set. */
  predicate HasBit(b: bv32, i: nat)
    requires i < 32
  {
    BitAt(b, i as bv32)
  }

  predicate BitAt(b: bv32, p: bv32)
    requires p < 32
  {
    (b >> p) & 1 == 1
  }

  /** The set bit positions of `b` from `k` on. */
  ghost function MembersFrom(b: bv32, k: nat): set<nat>
  {
    set i: nat | k <= i < 32 && HasBit(b, i)
  }

  /** The letters (as offsets from `'a'`) in a set: its abstract value. */
  ghost function Members(s: LetterSet): set<nat>
  {
    MembersFrom(s.bits, 0)
  }

  /** The characters `from_str` accepts: code points 0x61 to 0x7a. */
  predicate IsLower(c: char)
  {
    'a' <= c <= 'z'
  }

  predicate AllLower(s: string)
  {
    forall c :: c in s ==> IsLower(c)
  }

  /** The bit position of a lowercase letter. */
  function Offset(c: char): (r: nat)
    requires IsLower(c)
    ensures r < 26
  {
    c as int - 'a' as int
  }

  /** No letter set occurs twice. */
  ghost predicate NoRepeats(sets: seq<LetterSet>)
  {
    forall j, k :: 0 <= j < k < |sets| ==> sets[j] != sets[k]
  }

  /** The distinct characters of a string. */
  ghost function CharSet(s: string): set<char>
  {
    set c | c in s
  }

  /** The offsets of the lowercase letters of a string. */
  ghost function Offsets(s: string): set<nat>
  {
    set c | c in s && IsLower(c) :: Offset(c)
  }

  // ---------------------------------------------------------------------
  // Bit-level facts. The position is first stated as a `bv32`, where the
  // solver reasons about shifts directly, then carried over to `nat`.

  lemma PositionRoundTrip(i: nat)
    requires i <= 32
    ensures (i as bv32) as int == i
  {
    // The solver reasons about `int`-to-`bv32` conversion of an unknown value
    // only slowly; naming the 33 possible positions lets it evaluate each one.
    assert
      i == 0 || i == 1 || i == 2 || i == 3 || i == 4 || i == 5 || i == 6 || i == 7 ||
      i == 8 || i == 9 || i == 10 || i == 11 || i == 12 || i == 13 || i == 14 || i == 15 ||
      i == 16 || i == 17 || i == 18 || i == 19 || i == 20 || i == 21 || i == 22 || i == 23 ||
      i == 24 || i == 25 || i == 26 || i == 27 || i == 28 || i == 29 || i == 30 || i == 31 ||
      i == 32;
  }

  lemma OrAt(a: bv32, b: bv32, p: bv32)
    requires p < 32
    ensures BitAt(a | b, p) == (BitAt(a, p) || BitAt(b, p))
  {
  }

  lemma AndAt(a: bv32, b: bv32, p: bv32)
    requires p < 32
    ensures BitAt(a & b, p) == (BitAt(a, p) && BitAt(b, p))
  {
  }

  lemma XorAt(a: bv32, b: bv32, p: bv32)
    requires p < 32
    ensures BitAt(a ^ b, p) == (BitAt(a, p) != BitAt(b, p))
  {
  }

  lemma SingleAt(q: bv32, p: bv32)
    requires q < 32 && p < 32
    ensures BitAt((1 as bv32) << q, p) == (p == q)
  {
  }

  lemma XorZero(a: bv32, b: bv32)
    ensures a ^ b == 0 <==> a == b
  {
  }

  lemma ShiftStep(b: bv32, p: bv32)
    requires p < 32
    ensures (b >> p == 0) <==> (!BitAt(b, p) && b >> (p + 1) == 0)
  {
  }

  lemma OrBit(a: bv32, b: bv32, i: nat)
    requires i < 32
    ensures HasBit(a | b, i) == (HasBit(a, i) || HasBit(b, i))
  {
    OrAt(a, b, i as bv32);
  }

  lemma AndBit(a: bv32, b: bv32, i: nat)
    requires i < 32
    ensures HasBit(a & b, i) == (HasBit(a, i) && HasBit(b, i))
  {
    AndAt(a, b, i as bv32);
  }

  lemma XorBit(a: bv32, b: bv32, i: nat)
    requires i < 32
    ensures HasBit(a ^ b, i) == (HasBit(a, i) != HasBit(b, i))
  {
    XorAt(a, b, i as bv32);
  }

  lemma SingleBit(j: nat, i: nat)
    requires j < 32 && i < 32
    ensures HasBit((1 as bv32) << (j as bv32), i) == (i == j)
  {
    var p, q := i as bv32, j as bv32;
    PositionRoundTrip(i);
    PositionRoundTrip(j);
    assert (p == q) == (i == j);
    SingleAt(q, p);
  }

  /** Shifting by `p` leaves zero exactly when no bit at or above `p` is set. */
  lemma {:induction false} ShiftZero(b: bv32, p: bv32)
    requires p <= 32
    ensures (b >> p == 0) <==> (forall q: bv32 :: p <= q < 32 ==> !BitAt(b, q))
    decreases 32 - p
  {
    if p < 32 {
      ShiftZero(b, p + 1);
      ShiftStep(b, p);
    }
  }

  lemma ZeroIffNoBits(b: bv32)
    ensures (b == 0) <==> (forall i: nat :: i < 32 ==> !HasBit(b, i))
  {
    ShiftZero(b, 0);
    if forall i: nat :: i < 32 ==> !HasBit(b, i) {
      forall q: bv32 | q < 32
        ensures !BitAt(b, q)
      {
        assert !HasBit(b, q as int);
        assert (q as int) as bv32 == q;
      }
    }
  }

  // ---------------------------------------------------------------------
  // Operations

  /** `LetterSet::empty`: the set with no letters. */
  function Empty(): (r: LetterSet)
    ensures Members(r) == {}
  {
    LetterSet(0)
  }

  /** `BitOr` on letter sets: their union. */
  function Union(a: LetterSet, b: LetterSet): (r: LetterSet)
    ensures Members(r) == Members(a) + Members(b)
  {
    forall i: nat | i < 32 {
      OrBit(a.bits, b.bits, i);
    }
    LetterSet(a.bits | b.bits)
  }

  /** `BitAnd` on letter sets: their intersection. */
  function Intersection(a: LetterSet, b: LetterSet): (r: LetterSet)
    ensures Members(r) == Members(a) * Members(b)
  {
    forall i: nat | i < 32 {
      AndBit(a.bits, b.bits, i);
    }
    LetterSet(a.bits & b.bits)
  }

  /** `LetterSet::is_empty`: the mask is zero. */
  function IsEmpty(s: LetterSet): (r: bool)
    ensures r <==> Members(s) == {}
  {
    ZeroIffNoBits(s.bits);
    assert Members(s) == {} <==> forall i: nat :: i < 32 ==> !HasBit(s.bits, i) by {
      assert forall i: nat :: i < 32 ==> (i in Members(s) <==> HasBit(s.bits, i));
    }
    s.bits == 0
  }

  /** `LetterSet::overlaps`: the intersection is not empty. */
  function Overlaps(a: LetterSet, b: LetterSet): (r: bool)
    ensures r <==> Members(a) * Members(b) != {}
  {
    !IsEmpty(Intersection(a, b))
  }

  /** Number of set bits at positions `k` and above. */
  function CountOnesFrom(b: bv32, k: nat): nat
    requires k <= 32
    decreases 32 - k
  {
    if k == 32 then 0 else (if HasBit(b, k) then 1 else 0) + CountOnesFrom(b, k + 1)
  }

  lemma {:induction false} CountOnesFromMembers(b: bv32, k: nat)
    requires k <= 32
    ensures CountOnesFrom(b, k) == |MembersFrom(b, k)|
    decreases 32 - k
  {
    if k < 32 {
      CountOnesFromMembers(b, k + 1);
      if HasBit(b, k) {
        assert MembersFrom(b, k) == MembersFrom(b, k + 1) + {k};
      } else {
        assert MembersFrom(b, k) == MembersFrom(b, k + 1);
      }
    }
  }

  /** `LetterSet::len` (`count_ones`): the number of letters in the set. */
  function Len(s: LetterSet): (r: nat)
    ensures r == |Members(s)|
  {
    CountOnesFromMembers(s.bits, 0);
    CountOnesFrom(s.bits, 0)
  }

  /** Two masks with the same bits are equal. */
  lemma BitsDetermineMask(x: bv32, y: bv32)
    requires forall i: nat :: i < 32 ==> HasBit(x, i) == HasBit(y, i)
    ensures x == y
  {
    var z := x ^ y;
    forall i: nat | i < 32
      ensures !HasBit(z, i)
    {
      XorBit(x, y, i);
    }
    ZeroIffNoBits(z);
    XorZero(x, y);
  }

  /** Two letter sets are equal exactly when they hold the same letters. */
  lemma SameMembersSameSet(a: LetterSet, b: LetterSet)
    ensures a == b <==> Members(a) == Members(b)
  {
    if Members(a) == Members(b) {
      forall i: nat | i < 32
        ensures HasBit(a.bits, i) == HasBit(b.bits, i)
      {
        assert HasBit(a.bits, i) <==> i in Members(a);
        assert HasBit(b.bits, i) <==> i in Members(b);
      }
      BitsDetermineMask(a.bits, b.bits);
    }
  }

  /** The one-bit mask `1 << (ch - 'a')` of a lowercase letter. */
  function LetterBit(c: char): (r: LetterSet)
    requires IsLower(c)
    ensures Members(r) == {Offset(c)}
  {
    var bit := (1 as bv32) << (Offset(c) as bv32);
    forall i: nat | i < 32
      ensures HasBit(bit, i) == (i == Offset(c))
    {
      SingleBit(Offset(c), i);
    }
    LetterSet(bit)
  }

  /** The `k`-th character of `s` is its first one outside `a`..`z`. */
  ghost predicate FirstInvalidAt(s: string, k: nat)
  {
    k < |s| && !IsLower(s[k]) && AllLower(s[..k])
  }

  /**
   * `LetterSet::from_str`: the OR, left to right, of the bits of the
   * characters; the first character outside `a`..`z` panics, which is
   * `Failure` carrying that character.
   */
  function FromStr(s: string): (r: Result<LetterSet, char>)
    ensures r.Success? <==> AllLower(s)
    ensures r.Success? ==> Members(r.value) == Offsets(s)
    ensures r.Success? ==> forall i :: i in Members(r.value) ==> i < 26
    ensures r.Failure? ==> exists k: nat :: FirstInvalidAt(s, k) && s[k] == r.error
    decreases |s|
  {
    if s == [] then Success(Empty())
    else
      var init, ch := s[..|s| - 1], s[|s| - 1];
      assert s == init + [ch];
      AllLowerSnoc(init, ch);
      match FromStr(init)
      case Failure(c) =>
        assert exists k: nat :: FirstInvalidAt(s, k) && s[k] == c by {
          var k: nat :| FirstInvalidAt(init, k) && init[k] == c;
          FirstInvalidSnoc(init, ch, k);
        }
        Failure(c)
      case Success(acc) =>
        if IsLower(ch) then
          SnocLetter(init, ch);
          Success(Union(acc, LetterBit(ch)))
        else
          assert s[..|s| - 1] == init;
          assert FirstInvalidAt(s, |s| - 1);
          Failure(ch)
  }

  lemma AllLowerSnoc(init: string, ch: char)
    ensures AllLower(init + [ch]) <==> AllLower(init) && IsLower(ch)
  {
    assert forall c :: c in init + [ch] <==> c in init || c == ch;
  }

  /** The first invalid character of a string stays the first one when a character is appended. */
  lemma FirstInvalidSnoc(init: string, ch: char, k: nat)
    requires FirstInvalidAt(init, k)
    ensures FirstInvalidAt(init + [ch], k) && (init + [ch])[k] == init[k]
  {
    assert (init + [ch])[..k] == init[..k];
  }

  // ---------------------------------------------------------------------
  // Properties

  /** `from_str` sees only which characters occur, not their order or repetition. */
  lemma FromStrDependsOnCharSet(s1: string, s2: string)
    requires CharSet(s1) == CharSet(s2)
    ensures FromStr(s1).Success? == FromStr(s2).Success?
    ensures FromStr(s1).Success? ==> FromStr(s1).value == FromStr(s2).value
  {
    assert forall c :: c in s1 <==> c in s2 by {
      assert forall c :: c in s1 <==> c in CharSet(s1);
      assert forall c :: c in s2 <==> c in CharSet(s2);
    }
    if FromStr(s1).Success? {
      assert Offsets(s1) == Offsets(s2);
      SameMembersSameSet(FromStr(s1).value, FromStr(s2).value);
    }
  }

  /** Appending one lowercase letter to a string of lowercase letters. */
  lemma SnocLetter(init: string, ch: char)
    requires AllLower(init) && IsLower(ch)
    ensures CharSet(init + [ch]) == CharSet(init) + {ch}
    ensures Offsets(init + [ch]) == Offsets(init) + {Offset(ch)}
    ensures Offset(ch) in Offsets(init) <==> ch in CharSet(init)
  {
    var s := init + [ch];
    assert forall c :: c in s <==> c in init || c == ch;
    if Offset(ch) in Offsets(init) {
      var c :| c in init && IsLower(c) && Offset(c) == Offset(ch);
      assert c == ch;
    }
  }

  /** Distinct lowercase letters have distinct offsets. */
  lemma {:induction false} OffsetsCount(s: string)
    requires AllLower(s)
    ensures |Offsets(s)| == |CharSet(s)|
    decreases |s|
  {
    if s != [] {
      var init, ch := s[..|s| - 1], s[|s| - 1];
      assert s == init + [ch];
      OffsetsCount(init);
      SnocLetter(init, ch);
    }
  }

  /** The population of `from_str(s)` is the number of distinct letters of `s`. */
  lemma FromStrLen(s: string)
    requires AllLower(s)
    ensures Len(FromStr(s).value) == |CharSet(s)|
  {
    OffsetsCount(s);
  }

  /** `overlaps` is symmetric and never holds against the empty set. */
  lemma OverlapsSymmetricNotEmpty(a: LetterSet, b: LetterSet)
    ensures Overlaps(a, b) == Overlaps(b, a)
    ensures !Overlaps(a, Empty()) && !Overlaps(Empty(), a)
    ensures Overlaps(a, b) ==> !IsEmpty(a) && !IsEmpty(b)
  {
  }
}
