/** The packed pitch-bank-heading word (internal/utils/pbh_utils.go), over exact reals. */
module Pbh {

  const PITCH_MULTIPLIER: real := 256.0 / 90.0
  const BANK_MULTIPLIER: real := 512.0 / 180.0
  const HEADING_MULTIPLIER: real := 1024.0 / 360.0

  /** Half a step of each of the three angles, in degrees. */
  const HALF_STEP: real := 45.0 / 256.0

  datatype Attitude = Attitude(pitch: real, bank: real, heading: real, onGround: bool)

  /** `math.Round`: to the nearest integer, halves away from zero. */
  function Round(x: real): int {
    if x >= 0.0 then (x + 0.5).Floor else -((0.5 - x).Floor)
  }

  /** `uint32(n) & 0x3FF`: the low ten bits of the two's complement of `n`. */
  function LowTenBits(n: int): bv32 {
    (n % 1024) as bv32
  }

  function HeadingSteps(a: Attitude): int { Round(a.heading * HEADING_MULTIPLIER) }

  function BankSteps(a: Attitude): int { Round(a.bank * -BANK_MULTIPLIER) }

  function PitchSteps(a: Attitude): int { Round(a.pitch * -PITCH_MULTIPLIER) }

  // The conversions whose result Go defines.

  /** `uint32(x)` of the float with value `n`. */
  predicate FitsUint32(n: int) {
    0 <= n < 0x1_0000_0000
  }

  /** `int(x)` of the float with value `n`. */
  predicate FitsInt64(n: int) {
    -0x8000_0000_0000_0000 <= n <= 0x7FFF_FFFF_FFFF_FFFF
  }

  predicate Convertible(a: Attitude) {
    FitsUint32(HeadingSteps(a)) && FitsInt64(BankSteps(a)) && FitsInt64(PitchSteps(a))
  }

  /** The word whose fields are these. */
  function Assemble(onGround: bool, heading: bv32, bank: bv32, pitch: bv32): bv32 {
    (if onGround then 0x2 else 0x0) | (heading << 2) | (bank << 12) | (pitch << 22)
  }

  function Pack(a: Attitude): bv32 {
    Assemble(a.onGround, LowTenBits(HeadingSteps(a)), LowTenBits(BankSteps(a)), LowTenBits(PitchSteps(a)))
  }

  method PackPBH(pitch: real, bank: real, heading: real, onGround: bool) returns (pbh: bv32)
    requires Convertible(Attitude(pitch, bank, heading, onGround))
    ensures pbh == Pack(Attitude(pitch, bank, heading, onGround))
  {
    var hdgVal := LowTenBits(Round(heading * HEADING_MULTIPLIER));
    var bankVal := LowTenBits(Round(bank * -BANK_MULTIPLIER));
    var pitchVal := LowTenBits(Round(pitch * -PITCH_MULTIPLIER));
    pbh := OrFields(onGround, hdgVal, bankVal, pitchVal);
    hide LowTenBits, Round, Assemble;
  }

  /** The `|=` assignments, on values already reduced to ten bits. */
  method OrFields(onGround: bool, hdgVal: bv32, bankVal: bv32, pitchVal: bv32) returns (pbh: bv32)
    ensures pbh == Assemble(onGround, hdgVal, bankVal, pitchVal)
  {
    pbh := 0;
    if onGround {
      pbh := pbh | 0x2;
    }
    pbh := pbh | (hdgVal << 2);
    pbh := pbh | (bankVal << 12);
    pbh := pbh | (pitchVal << 22);
  }

  // ---------------------------------------------------------------- unpacking

  function HeadingBits(pbh: bv32): bv32 { (pbh & 0xFFC) >> 2 }

  function BankBits(pbh: bv32): bv32 { (pbh & 0x3FF000) >> 12 }

  function PitchBits(pbh: bv32): bv32 { (pbh & 0xFFC00000) >> 22 }

  /** The value of ten bits in two's complement, which the source gets by shifting an int32 up and down. */
  function Signed(bits: bv32): int {
    if bits >= 0x200 then bits as int - 1024 else bits as int
  }

  function Unpack(pbh: bv32): Attitude {
    Attitude((Signed(PitchBits(pbh)) as real) * (-90.0 / 256.0),
             (Signed(BankBits(pbh)) as real) * (-180.0 / 512.0),
             (HeadingBits(pbh) as int as real) * (360.0 / 1024.0),
             (pbh & 0x2) >> 1 == 1)
  }

  /** `>> 22` on an int32. */
  function ArithmeticShift22(x: bv32): bv32 {
    if x & 0x8000_0000 != 0 then (x >> 22) | 0xFFFF_FC00 else x >> 22
  }

  /** The source's shifts extend the sign of the ten bits. */
  lemma ShiftsExtendSign(pbh: bv32)
    ensures ArithmeticShift22((pbh & 0x3FF000) << 10)
         == (if BankBits(pbh) >= 0x200 then BankBits(pbh) | 0xFFFF_FC00 else BankBits(pbh))
    ensures ArithmeticShift22(pbh & 0xFFC00000)
         == (if PitchBits(pbh) >= 0x200 then PitchBits(pbh) | 0xFFFF_FC00 else PitchBits(pbh))
  {
  }

  lemma TenBits(bits: bv32)
    requires bits <= 0x3FF
    ensures 0 <= bits as int <= 1023 && (bits as int) as bv32 == bits
  {
  }

  lemma Successor(bits: bv32)
    requires bits <= 0x3FF
    ensures (bits + 1) as int == bits as int + 1
  {
  }

  lemma {:induction false} BitsOf(m: nat) returns (bits: bv32)
    requires m < 1024
    ensures bits <= 0x3FF && bits as int == m
  {
    if m == 0 {
      bits := 0;
    } else {
      var before := BitsOf(m - 1);
      BelowTop(before);
      Successor(before);
      bits := before + 1;
    }
  }

  lemma BelowTop(bits: bv32)
    requires bits <= 0x3FF && bits as int < 1023
    ensures bits < 0x3FF
  {
  }

  lemma LowTenBitsValue(n: int)
    ensures LowTenBits(n) <= 0x3FF && LowTenBits(n) as int == n % 1024
  {
    var bits := BitsOf(n % 1024);
    TenBits(bits);
  }

  /** The fields of an assembled word. */
  lemma FieldsOfWord(ground: bv32, heading: bv32, bank: bv32, pitch: bv32)
    requires (ground == 0 || ground == 2) && heading <= 0x3FF && bank <= 0x3FF && pitch <= 0x3FF
    ensures var w := Assemble(ground == 2, heading, bank, pitch);
      HeadingBits(w) == heading && BankBits(w) == bank && PitchBits(w) == pitch && w & 0x2 == ground
  {
  }

  lemma WordOfFields(pbh: bv32)
    ensures (pbh & 0x2) | (HeadingBits(pbh) << 2) | (BankBits(pbh) << 12) | (PitchBits(pbh) << 22) == pbh & 0xFFFF_FFFE
    ensures HeadingBits(pbh) <= 0x3FF && BankBits(pbh) <= 0x3FF && PitchBits(pbh) <= 0x3FF
    ensures pbh & 0x2 == 0 || pbh & 0x2 == 2
  {
  }

  lemma RoundOfInteger(n: int)
    ensures Round(n as real) == n
  {
  }

  lemma RoundIsNear(x: real)
    ensures x - 0.5 <= Round(x) as real <= x + 0.5
  {
  }

  lemma SignedLow(bits: bv32)
    requires bits <= 0x3FF
    ensures LowTenBits(Signed(bits)) == bits
  {
    TenBits(bits);
    var n := bits as int;
    assert Signed(bits) == n || Signed(bits) == n - 1024;
    hide Signed;
    assert Signed(bits) % 1024 == n;
  }

  lemma AssembleFields(pbh: bv32)
    ensures Assemble(Unpack(pbh).onGround, HeadingBits(pbh), BankBits(pbh), PitchBits(pbh)) == pbh & 0xFFFF_FFFE
  {
    WordOfFields(pbh);
    GroundBit(pbh);
    hide HeadingBits, BankBits, PitchBits;
  }

  lemma UnpackedConvertible(pbh: bv32)
    ensures Convertible(Unpack(pbh))
  {
    hide HeadingBits, BankBits, PitchBits, Unpack, Signed, HeadingSteps, BankSteps, PitchSteps;
    WordOfFields(pbh);
    TenBits(HeadingBits(pbh));
    StepsOfUnpacked(pbh);
    SignedRange(BankBits(pbh));
    SignedRange(PitchBits(pbh));
  }

  /** Packing what was unpacked gives the word back, up to the unused bit 0. */
  lemma PackUnpack(pbh: bv32)
    ensures Convertible(Unpack(pbh))
    ensures Pack(Unpack(pbh)) == pbh & 0xFFFF_FFFE
  {
    hide HeadingBits, BankBits, PitchBits, LowTenBits, Assemble, Unpack, Signed, HeadingSteps, BankSteps, PitchSteps,
         Convertible;
    UnpackedConvertible(pbh);
    WordOfFields(pbh);
    StepsOfUnpacked(pbh);
    SignedLow(BankBits(pbh));
    SignedLow(PitchBits(pbh));
    LowOfTenBits(HeadingBits(pbh));
    AssembleFields(pbh);
  }

  lemma SignedRange(bits: bv32)
    requires bits <= 0x3FF
    ensures -512 <= Signed(bits) <= 1023
  {
    TenBits(bits);
  }

  lemma LowOfTenBits(bits: bv32)
    requires bits <= 0x3FF
    ensures LowTenBits(bits as int) == bits
  {
    TenBits(bits);
  }

  lemma GroundBit(pbh: bv32)
    ensures (if (pbh & 0x2) >> 1 == 1 then 0x2 else 0x0) == pbh & 0x2
  {
  }

  lemma StepsOfUnpacked(pbh: bv32)
    ensures HeadingSteps(Unpack(pbh)) == HeadingBits(pbh) as int
    ensures BankSteps(Unpack(pbh)) == Signed(BankBits(pbh))
    ensures PitchSteps(Unpack(pbh)) == Signed(PitchBits(pbh))
  {
    hide HeadingBits, BankBits, PitchBits, Signed, Round;
    var h, b, p := HeadingBits(pbh) as int, Signed(BankBits(pbh)), Signed(PitchBits(pbh));
    assert (h as real) * (360.0 / 1024.0) * HEADING_MULTIPLIER == h as real;
    assert (b as real) * (-180.0 / 512.0) * -BANK_MULTIPLIER == b as real;
    assert (p as real) * (-90.0 / 256.0) * -PITCH_MULTIPLIER == p as real;
    RoundOfInteger(h);
    RoundOfInteger(b);
    RoundOfInteger(p);
  }

  // ---------------------------------------------------------------- how much is lost

  predicate FitsTenSignedBits(n: int) {
    -512 <= n <= 511
  }

  function Abs(x: real): real {
    if x >= 0.0 then x else -x
  }

  /** What comes back of each angle whose conversion Go defines. */
  lemma UnpackedSteps(a: Attitude)
    ensures var u := Unpack(Pack(a));
      && u.onGround == a.onGround
      && (FitsUint32(HeadingSteps(a)) ==> u.heading == ((HeadingSteps(a) % 1024) as real) * (360.0 / 1024.0))
      && (FitsInt64(BankSteps(a)) ==> u.bank == (Wrapped(BankSteps(a)) as real) * (-180.0 / 512.0))
      && (FitsInt64(PitchSteps(a)) ==> u.pitch == (Wrapped(PitchSteps(a)) as real) * (-90.0 / 256.0))
  {
    LowTenBitsValue(HeadingSteps(a));
    LowTenBitsValue(BankSteps(a));
    LowTenBitsValue(PitchSteps(a));
    FieldsOfWord(if a.onGround then 2 else 0,
                 LowTenBits(HeadingSteps(a)), LowTenBits(BankSteps(a)), LowTenBits(PitchSteps(a)));
    GroundBit(Pack(a));
    SignedIsWrapped(BankSteps(a));
    SignedIsWrapped(PitchSteps(a));
    hide Assemble, LowTenBits, HeadingBits, BankBits, PitchBits, Signed, HeadingSteps, BankSteps, PitchSteps;
  }

  /** `n` reduced modulo 1024 into [-512, 511]. */
  function Wrapped(n: int): int {
    if n % 1024 >= 512 then n % 1024 - 1024 else n % 1024
  }

  lemma SignedIsWrapped(n: int)
    ensures Signed(LowTenBits(n)) == Wrapped(n)
  {
    LowTenBitsValue(n);
    TenBits(LowTenBits(n));
    hide LowTenBits;
  }

  lemma RoundHalf(x: real)
    ensures Abs(Round(x) as real - x) <= 0.5
  {
    RoundIsNear(x);
  }

  /** A wrapped count of steps is near the exact one exactly when nothing was wrapped. */
  lemma WrappedIsNear(x: real)
    ensures Abs(Wrapped(Round(x)) as real - x) <= 0.5 <==> FitsTenSignedBits(Round(x))
  {
    RoundHalf(x);
    var n := Round(x);
    hide Round;
    assert Wrapped(n) == n <==> FitsTenSignedBits(n);
    assert Wrapped(n) != n ==> Wrapped(n) <= n - 1024 || Wrapped(n) >= n + 1024;
  }

  /** Pitch and bank survive packing to within half a step exactly when they round into ten signed bits. */
  lemma PitchAndBankWithinHalfStep(a: Attitude)
    requires FitsInt64(PitchSteps(a)) && FitsInt64(BankSteps(a))
    ensures Abs(Unpack(Pack(a)).pitch - a.pitch) <= HALF_STEP <==> FitsTenSignedBits(PitchSteps(a))
    ensures Abs(Unpack(Pack(a)).bank - a.bank) <= HALF_STEP <==> FitsTenSignedBits(BankSteps(a))
  {
    UnpackedSteps(a);
    var x, y := a.pitch * -PITCH_MULTIPLIER, a.bank * -BANK_MULTIPLIER;
    WrappedIsNear(x);
    WrappedIsNear(y);
    hide Pack, Unpack, Wrapped, Round, FitsTenSignedBits;
    StepsToDegrees(Wrapped(PitchSteps(a)) as real, x);
    StepsToDegrees(Wrapped(BankSteps(a)) as real, y);
    assert x * (-90.0 / 256.0) == a.pitch && y * (-180.0 / 512.0) == a.bank;
  }

  lemma StepsToDegrees(d: real, x: real)
    ensures Abs(d - x) <= 0.5 <==> Abs(d * (-90.0 / 256.0) - x * (-90.0 / 256.0)) <= HALF_STEP
  {
  }

  /** Units, signs and places of the fields: a heading step is 360/1024 degrees, a bank and a pitch step are -180/512
    * and -90/256 degrees, and the fields start at bits 2, 12 and 22, the ground flag at bit 1. */
  lemma FieldUnits()
    ensures UnpackPBH(0) == Attitude(0.0, 0.0, 0.0, false)
    ensures UnpackPBH(0x2) == Attitude(0.0, 0.0, 0.0, true)
    ensures UnpackPBH(0x4) == Attitude(0.0, 0.0, 360.0 / 1024.0, false)
    ensures UnpackPBH(0x1000) == Attitude(0.0, -180.0 / 512.0, 0.0, false)
    ensures UnpackPBH(0x40_0000) == Attitude(-90.0 / 256.0, 0.0, 0.0, false)
  {
  }

  /** Rounding is to the nearest integer, and halves go away from zero. */
  lemma RoundIsNearest(x: real)
    ensures -0.5 <= Round(x) as real - x <= 0.5
    ensures x >= 0.0 ==> Round(x) as real - x > -0.5
    ensures x < 0.0 ==> Round(x) as real - x < 0.5
    ensures Round(-x) == -Round(x)
  {
  }

  /** The decoded heading lies in [0, 360) for every word. */
  lemma HeadingInCircle(pbh: bv32)
    ensures 0.0 <= Unpack(pbh).heading < 360.0
  {
    WordOfFields(pbh);
    TenBits(HeadingBits(pbh));
    hide HeadingBits, BankBits, PitchBits, Signed;
  }

  /** A heading that does not round to a negative number survives packing to within half a step, up to whole turns. */
  lemma HeadingWithinHalfStep(a: Attitude) returns (turns: int)
    requires FitsUint32(HeadingSteps(a))
    ensures turns >= 0 && Unpack(Pack(a)).onGround == a.onGround
    ensures Abs(Unpack(Pack(a)).heading + (turns as real) * 360.0 - a.heading) <= HALF_STEP
  {
    UnpackedSteps(a);
    var x := a.heading * HEADING_MULTIPLIER;
    RoundHalf(x);
    var n := HeadingSteps(a);
    turns := n / 1024;
    hide Pack, Unpack, Round;
    assert n == n % 1024 + turns * 1024;
    assert (n as real) * (360.0 / 1024.0) == ((n % 1024) as real) * (360.0 / 1024.0) + (turns as real) * 360.0;
    assert x * (360.0 / 1024.0) == a.heading;
  }

  // ---------------------------------------------------------------- unpacking as the source does it

  /** The value of an `int32` with these bits, in two's complement. */
  function AsInt32(x: bv32): int {
    if x & 0x8000_0000 != 0 then -((!x + 1) as int) else x as int
  }

  /** The expressions of the source: fields are sign-extended by shifting an int32 up and down. */
  function UnpackPBH(pbh: bv32): Attitude {
    var onGround := (pbh & 0x2) >> 1 == 1;
    var hdgBits := (pbh & 0xFFC) >> 2;
    var heading := (hdgBits as int as real) * (360.0 / 1024.0);
    var bankVal := AsInt32(ArithmeticShift22((pbh & 0x3FF000) << 10));
    var bank := (bankVal as real) * (-180.0 / 512.0);
    var pitchVal := AsInt32(ArithmeticShift22(pbh & 0xFFC00000));
    var pitch := (pitchVal as real) * (-90.0 / 256.0);
    Attitude(pitch, bank, heading, onGround)
  }

  /** `bits` and `complement` count from the two ends of 0..1024. */
  lemma {:induction false} Complements(m: nat) returns (bits: bv32, complement: bv32)
    requires m < 1024
    ensures bits <= 0x3FF && bits as int == m
    ensures complement == 0x400 - bits && complement as int == 1024 - m
  {
    if m == 0 {
      bits, complement := 0, 0x400;
    } else {
      var before, over := Complements(m - 1);
      BelowTop(before);
      Successor(before);
      OneLess(before, over);
      Successor(over - 1);
      bits, complement := before + 1, over - 1;
    }
  }

  lemma OneLess(bits: bv32, complement: bv32)
    requires bits < 0x3FF && complement == 0x400 - bits
    ensures bits + 1 <= 0x3FF && complement - 1 == 0x400 - (bits + 1)
    ensures complement - 1 <= 0x3FF && complement - 1 + 1 == complement
  {
  }

  lemma SameBits(a: bv32, b: bv32)
    requires a <= 0x3FF && b <= 0x3FF && a as int == b as int
    ensures a == b
  {
    TenBits(a);
    TenBits(b);
  }

  lemma ComplementValue(bits: bv32, m: nat)
    requires bits <= 0x3FF && bits as int == m < 1024
    ensures (0x400 - bits) as int == 1024 - m
  {
    var same, complement := Complements(m);
    SameBits(bits, same);
  }

  lemma SignExtended(bits: bv32)
    requires bits <= 0x3FF
    ensures !(bits | 0xFFFF_FC00) + 1 == 0x400 - bits
    ensures (bits | 0xFFFF_FC00) & 0x8000_0000 != 0 && bits & 0x8000_0000 == 0
  {
  }

  lemma SignedOfShifted(bits: bv32)
    requires bits <= 0x3FF
    ensures AsInt32(if bits >= 0x200 then bits | 0xFFFF_FC00 else bits) == Signed(bits)
  {
    SignExtended(bits);
    TenBits(bits);
    ComplementValue(bits, bits as int);
  }

  /** Shifting up and down reads a field as a signed ten-bit number. */
  lemma UnpackReadsFields(pbh: bv32)
    ensures UnpackPBH(pbh) == Unpack(pbh)
  {
    WordOfFields(pbh);
    ShiftsExtendSign(pbh);
    SignedOfShifted(BankBits(pbh));
    SignedOfShifted(PitchBits(pbh));
    hide BankBits, PitchBits, AsInt32, Signed, ArithmeticShift22;
  }
}
