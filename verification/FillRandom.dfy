/**
 The value generator of the bulk loader: a key number becomes a 64-bit seed, mixed by one
 multiplication and then by one three-shift xorshift step per byte. Words wrap around.
 */
module FillRandom {

  // ---- the key number as a 64-bit word ------------------------------------

  const WORDS := 0x1_0000_0000_0000_0000

  function Bits(b7: bool, b6: bool, b5: bool, b4: bool, b3: bool, b2: bool, b1: bool, b0: bool): bv8 {
    (if b7 then 0x80 else 0) | (if b6 then 0x40 else 0) | (if b5 then 0x20 else 0) | (if b4 then 0x10 else 0)
    | (if b3 then 0x08 else 0) | (if b2 then 0x04 else 0) | (if b1 then 0x02 else 0) | (if b0 then 0x01 else 0)
  }

  predicate Odd(n: nat) { n % 2 == 1 }

  function Half(n: nat, times: nat): nat { if times == 0 then n else Half(n, times - 1) / 2 }

  /** The lowest eight bits of a number. */
  function Byte(n: nat): bv8 {
    Bits(Odd(Half(n, 7)), Odd(Half(n, 6)), Odd(Half(n, 5)), Odd(Half(n, 4)),
         Odd(Half(n, 3)), Odd(Half(n, 2)), Odd(Half(n, 1)), Odd(n))
  }

  function Join(b7: bv8, b6: bv8, b5: bv8, b4: bv8, b3: bv8, b2: bv8, b1: bv8, b0: bv8): bv64 {
    ((b7 as bv64) << 56) | ((b6 as bv64) << 48) | ((b5 as bv64) << 40) | ((b4 as bv64) << 32)
    | ((b3 as bv64) << 24) | ((b2 as bv64) << 16) | ((b1 as bv64) << 8) | (b0 as bv64)
  }

  function Quotient(n: nat, times: nat): nat { if times == 0 then n else Quotient(n, times - 1) / 256 }

  /** `(uint64_t)key`, byte by byte. */
  function Word(key: nat): bv64 {
    Join(Byte(Quotient(key, 7)), Byte(Quotient(key, 6)), Byte(Quotient(key, 5)), Byte(Quotient(key, 4)),
         Byte(Quotient(key, 3)), Byte(Quotient(key, 2)), Byte(Quotient(key, 1)), Byte(key))
  }

  function ByteAt(w: bv64, i: nat): bv8
    requires i < 8
  {
    match i
    case 0 => (w & 0xFF) as bv8
    case 1 => ((w >> 8) & 0xFF) as bv8
    case 2 => ((w >> 16) & 0xFF) as bv8
    case 3 => ((w >> 24) & 0xFF) as bv8
    case 4 => ((w >> 32) & 0xFF) as bv8
    case 5 => ((w >> 40) & 0xFF) as bv8
    case 6 => ((w >> 48) & 0xFF) as bv8
    case _ => ((w >> 56) & 0xFF) as bv8
  }

  lemma JoinBytes(b7: bv8, b6: bv8, b5: bv8, b4: bv8, b3: bv8, b2: bv8, b1: bv8, b0: bv8)
    ensures var w := Join(b7, b6, b5, b4, b3, b2, b1, b0);
      [ByteAt(w, 0), ByteAt(w, 1), ByteAt(w, 2), ByteAt(w, 3), ByteAt(w, 4), ByteAt(w, 5), ByteAt(w, 6), ByteAt(w, 7)]
      == [b0, b1, b2, b3, b4, b5, b6, b7]
  {
  }

  lemma BitsBack(b7: bool, b6: bool, b5: bool, b4: bool, b3: bool, b2: bool, b1: bool, b0: bool)
    ensures var w := Bits(b7, b6, b5, b4, b3, b2, b1, b0);
      && (w & 0x80 != 0) == b7 && (w & 0x40 != 0) == b6 && (w & 0x20 != 0) == b5 && (w & 0x10 != 0) == b4
      && (w & 0x08 != 0) == b3 && (w & 0x04 != 0) == b2 && (w & 0x02 != 0) == b1 && (w & 0x01 != 0) == b0
  {
  }

  /** Bit i of a byte. */
  predicate BitAt(w: bv8, i: nat)
    requires i < 8
  {
    match i
    case 0 => w & 0x01 != 0
    case 1 => w & 0x02 != 0
    case 2 => w & 0x04 != 0
    case 3 => w & 0x08 != 0
    case 4 => w & 0x10 != 0
    case 5 => w & 0x20 != 0
    case 6 => w & 0x40 != 0
    case _ => w & 0x80 != 0
  }

  /** And bit i of a byte is bit i of the number. */
  lemma ByteBits(n: nat)
    ensures forall i: nat :: i < 8 ==> BitAt(Byte(n), i) == Odd(Half(n, i))
  {
    hide Bits, Odd, Half;
    HalfNone(n);
    BitsBack(Odd(Half(n, 7)), Odd(Half(n, 6)), Odd(Half(n, 5)), Odd(Half(n, 4)),
             Odd(Half(n, 3)), Odd(Half(n, 2)), Odd(Half(n, 1)), Odd(n));
  }

  lemma HalfNone(n: nat)
    ensures Half(n, 0) == n
  {
  }

  function Power2(k: nat): nat { if k == 0 then 1 else 2 * Power2(k - 1) }

  /** Numbers whose lowest k bits agree differ by a multiple of 2^k. */
  lemma {:induction false} SameBits(a: nat, b: nat, k: nat)
    requires forall i: nat :: i < k ==> Odd(Half(a, i)) == Odd(Half(b, i))
    ensures a - b == Power2(k) * (Half(a, k) - Half(b, k))
  {
    if k > 0 {
      SameBits(a, b, k - 1);
      var x: int := Half(a, k - 1);
      var y: int := Half(b, k - 1);
      assert Odd(x) == Odd(y);
      assert x - y == 2 * (Half(a, k) - Half(b, k));
      Doubled(Power2(k - 1), Half(a, k) - Half(b, k));
    }
  }

  lemma Doubled(p: nat, d: int)
    ensures p * (2 * d) == 2 * p * d
  {
  }

  lemma ByteInjective(a: nat, b: nat)
    requires Byte(a) == Byte(b)
    ensures a % 256 == b % 256
  {
    hide Byte, Odd, BitAt, Half;
    ByteBits(a);
    ByteBits(b);
    SameBits(a, b, 8);
    assert Power2(4) == 16 && Power2(8) == 16 * Power2(4);
  }

  lemma {:induction false} HalfBelow(n: nat, k: nat, m: nat)
    requires n < Power2(k) * m
    ensures Half(n, k) < m
  {
    if k > 0 {
      Doubled(Power2(k - 1), m);
      HalfBelow(n, k - 1, 2 * m);
    }
  }

  /** Numbers below 128 leave the top bit clear. */
  lemma SmallByte(n: nat)
    requires n < 128
    ensures Byte(n) & 0x80 == 0
  {
    hide Byte, Half;
    ByteBits(n);
    assert BitAt(Byte(n), 7) == Odd(Half(n, 7));
    assert Power2(4) == 16 && Power2(7) == 8 * Power2(4);
    HalfBelow(n, 7, 1);
  }

  /** Distinct key numbers are distinct words. */
  lemma WordInjective(a: nat, b: nat)
    requires a < WORDS && b < WORDS && Word(a) == Word(b)
    ensures a == b
  {
    hide Join, ByteAt;
    KeyBytes(a);
    KeyBytes(b);
    forall i: nat | i < 8 ensures Quotient(a, i) % 256 == Quotient(b, i) % 256 {
      ByteInjective(Quotient(a, i), Quotient(b, i));
    }
    SameQuotient(a, b, 0);
  }

  /** Byte i of the word is byte i of the key number. */
  lemma KeyBytes(key: nat)
    ensures forall i: nat :: i < 8 ==> ByteAt(Word(key), i) == Byte(Quotient(key, i))
  {
    hide Byte;
    JoinBytes(Byte(Quotient(key, 7)), Byte(Quotient(key, 6)), Byte(Quotient(key, 5)), Byte(Quotient(key, 4)),
              Byte(Quotient(key, 3)), Byte(Quotient(key, 2)), Byte(Quotient(key, 1)), Byte(key));
  }

  lemma {:induction false} SameQuotient(a: nat, b: nat, i: nat)
    requires a < WORDS && b < WORDS && i <= 8
    requires forall j: nat :: j < 8 ==> Quotient(a, j) % 256 == Quotient(b, j) % 256
    ensures Quotient(a, i) == Quotient(b, i)
    decreases 8 - i
  {
    if i < 8 {
      SameQuotient(a, b, i + 1);
    } else {
      EighthQuotient(a);
      EighthQuotient(b);
    }
  }

  lemma EighthQuotient(n: nat)
    requires n < WORDS
    ensures Quotient(n, 8) == 0 && Quotient(n, 7) == n / 0x100_0000_0000_0000
  {
    assert Quotient(n, 2) == Quotient(n, 1) / 256 && Quotient(n, 1) == n / 256;
    assert Quotient(n, 2) == n / 0x1_0000;
    assert Quotient(n, 4) == Quotient(n, 3) / 256 && Quotient(n, 3) == Quotient(n, 2) / 256;
    assert Quotient(n, 4) == n / 0x1_0000_0000;
    assert Quotient(n, 6) == Quotient(n, 5) / 256 && Quotient(n, 5) == Quotient(n, 4) / 256;
    assert Quotient(n, 6) == n / 0x1_0000_0000_0000;
  }

  // ---- the generator ------------------------------------------------------

  /** The state a key starts from. */
  function Seeded(w: bv64): bv64 { w * 6364136223846793005 + 1442695040888963407 }

  function ShiftA(s: bv64): bv64 { s ^ (s >> 12) }
  function ShiftB(s: bv64): bv64 { s ^ (s << 25) }
  function ShiftC(s: bv64): bv64 { s ^ (s >> 27) }

  /** One xorshift step. */
  function Step(s: bv64): bv64 { ShiftC(ShiftB(ShiftA(s))) }

  /** The state after `steps` steps. */
  function State(key: nat, steps: nat): bv64 {
    if steps == 0 then Seeded(Word(key)) else Step(State(key, steps - 1))
  }

  /** The byte a state yields. */
  function Top(s: bv64): bv8 { (s >> 56) as bv8 }

  /** Fill the buffer in place for one key. */
  method Fill(key: nat, value: array<bv8>)
    modifies value
    ensures forall i :: 0 <= i < value.Length ==> value[i] == Top(State(key, i + 1))
  {
    hide Word, Seeded, ShiftA, ShiftB, ShiftC, Top;
    var s := Seeded(Word(key));
    for i := 0 to value.Length
      invariant s == State(key, i)
      invariant forall k :: 0 <= k < i ==> value[k] == Top(State(key, k + 1))
    {
      s := ShiftA(s);
      s := ShiftB(s);
      s := ShiftC(s);
      value[i] := Top(s);
    }
  }

  // ---- every stage can be undone ------------------------------------------

  function Unseeded(s: bv64): bv64 { (s - 1442695040888963407) * 13877824140714322085 }

  function UnshiftA(s: bv64): bv64 { s ^ (s >> 12) ^ (s >> 24) ^ (s >> 36) ^ (s >> 48) ^ (s >> 60) }
  function UnshiftB(s: bv64): bv64 { s ^ (s << 25) ^ (s << 50) }
  function UnshiftC(s: bv64): bv64 { s ^ (s >> 27) ^ (s >> 54) }

  function Unstep(s: bv64): bv64 { UnshiftA(UnshiftB(UnshiftC(s))) }

  lemma MultiplierInverse(w: bv64)
    ensures Unseeded(w * 6364136223846793005 + 1442695040888963407) == w
  {
  }

  lemma ShiftAExpanded(s: bv64) ensures UnshiftA(s ^ (s >> 12)) == s {}
  lemma ShiftBExpanded(s: bv64) ensures UnshiftB(s ^ (s << 25)) == s {}
  lemma ShiftCExpanded(s: bv64) ensures UnshiftC(s ^ (s >> 27)) == s {}

  lemma UnshiftAExpanded(s: bv64)
    ensures ShiftA(s ^ (s >> 12) ^ (s >> 24) ^ (s >> 36) ^ (s >> 48) ^ (s >> 60)) == s
  {
  }

  lemma UnshiftBExpanded(s: bv64) ensures ShiftB(s ^ (s << 25) ^ (s << 50)) == s {}
  lemma UnshiftCExpanded(s: bv64) ensures ShiftC(s ^ (s >> 27) ^ (s >> 54)) == s {}

  lemma SeedingInverts(w: bv64)
    ensures Unseeded(Seeded(w)) == w
  {
    MultiplierInverse(w);
  }

  lemma ShiftsInvert(s: bv64)
    ensures UnshiftA(ShiftA(s)) == s && UnshiftB(ShiftB(s)) == s && UnshiftC(ShiftC(s)) == s
  {
    hide UnshiftA, UnshiftB, UnshiftC;
    ShiftAExpanded(s);
    ShiftBExpanded(s);
    ShiftCExpanded(s);
  }

  lemma UnshiftsInvert(s: bv64)
    ensures ShiftA(UnshiftA(s)) == s && ShiftB(UnshiftB(s)) == s && ShiftC(UnshiftC(s)) == s
  {
    hide ShiftA, ShiftB, ShiftC;
    UnshiftAExpanded(s);
    UnshiftBExpanded(s);
    UnshiftCExpanded(s);
  }

  /** A step is a bijection: `Unstep` undoes it, and it undoes `Unstep`. */
  lemma StepInverts(s: bv64)
    ensures Unstep(Step(s)) == s && Step(Unstep(s)) == s
  {
    hide ShiftA, ShiftB, ShiftC, UnshiftA, UnshiftB, UnshiftC;
    ShiftsInvert(s);
    ShiftsInvert(ShiftA(s));
    ShiftsInvert(ShiftB(ShiftA(s)));
    UnshiftsInvert(s);
    UnshiftsInvert(UnshiftC(s));
    UnshiftsInvert(UnshiftB(UnshiftC(s)));
  }

  const LOW56: bv64 := 0x00FF_FFFF_FFFF_FFFF

  /** A state is the byte it yields, then 56 bits more. */
  lemma TopBack(s: bv64)
    ensures ((Top(s) as bv64) << 56) | (s & LOW56) == s
  {
  }

  /** So a word built from a byte and 56 bits yields that byte. */
  lemma TopOf(b: bv8, rest: bv64)
    requires rest <= LOW56
    ensures Top(((b as bv64) << 56) | rest) == b
  {
  }

  /** Undoing one step leads from each state of a key to the one before, and back to the key itself. */
  lemma StatesBack(key: nat, steps: nat)
    ensures Unstep(State(key, steps + 1)) == State(key, steps)
    ensures Unseeded(State(key, 0)) == Word(key)
  {
    hide Step, Unstep, Seeded, Unseeded, Word;
    StepInverts(State(key, steps));
    SeedingInverts(Word(key));
  }

  /** Distinct keys are in distinct states at every byte of their values. */
  lemma {:induction false} DistinctStates(a: nat, b: nat, steps: nat)
    requires a < WORDS && b < WORDS && a != b
    ensures State(a, steps) != State(b, steps)
  {
    hide Word, Seeded, Unseeded, Step, Unstep;
    if State(a, steps) == State(b, steps) {
      if steps == 0 {
        SeedingInverts(Word(a));
        SeedingInverts(Word(b));
        WordInjective(a, b);
      } else {
        StepInverts(State(a, steps - 1));
        StepInverts(State(b, steps - 1));
        DistinctStates(a, b, steps - 1);
      }
    }
  }

  // ---- the all-zero state -------------------------------------------------

  /** The one word whose seeding is the state that xorshift never leaves. */
  const DEAD: bv64 := 11066951453180645397

  lemma DeadSeed(w: bv64)
    ensures Seeded(w) == 0 <==> w == DEAD
  {
    if Seeded(w) == 0 { SeedingInverts(w); }
  }

  /** No key number that a signed 64-bit counter can reach ever gets into it. */
  lemma {:induction false} NeverDead(key: nat, steps: nat)
    requires key < 0x8000_0000_0000_0000
    ensures State(key, steps) != 0
  {
    if steps == 0 {
      KeyBytes(key);
      EighthQuotient(key);
      SmallByte(Quotient(key, 7));
      DeadSeed(Word(key));
    } else {
      NeverDead(key, steps - 1);
      StepInverts(State(key, steps - 1));
      StepInverts(0);
      assert Step(0) == 0;
    }
  }
}
