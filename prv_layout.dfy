/**
 * The storage layouts declared in PrvSetting.h.
 *
 * `_FB` is a byte of eight one-bit fields `bit01` .. `bit08`; `_FLAG` is a
 * union of that struct with the whole byte `all_bits`.  `_mDATA` is a union of
 * a 32-bit word `all_bits` with thirty-two one-bit fields `bit01` .. `bit32`,
 * where `bitNN` stands for day NN of a month and `bit32` is reserved.
 *
 * Each union is modelled as one bit-vector (the `all_bits` view) together with
 * field accessors (the bit-field view).  The firmware, compiled as C++ by GCC
 * for ESP32/ESP8266, relies on two things the language leaves to the
 * compiler: that writing one member of a union and reading another gives the
 * same bits (type punning), and that bit-fields are allocated from the least
 * significant bit up.  Both are fixed by `FieldBit8` and `FieldBit32`: field
 * `bitNN` is bit NN - 1 of the one bit-vector.  The field writes
 * (`WithField8`, `WithField32`) and the byte and word constants elsewhere in
 * the model are proved against these two predicates.
 *
 * Field numbers have the width of the value they index, so that every
 * shift stays within one bit-vector type.
 */
module PrvLayout {

  /** Number of one-bit fields in an `_FB` byte. */
  const FlagFieldCount: bv8 := 8
  /** Number of one-bit fields in an `_mDATA` word. */
  const MonthFieldCount: bv32 := 32
  /** The field of an `_mDATA` word that stands for no day. */
  const ReservedField: bv32 := 32

  // ---------------------------------------------------------------------
  // _FLAG: one byte, eight one-bit fields

  /**
   * Field `bit<n>` of an `_FB` byte, read through the byte view: bit n - 1,
   * counted from the least significant bit.
   */
  predicate FieldBit8(x: bv8, n: bv8)
    requires 1 <= n <= FlagFieldCount
    ensures FieldBit8(x, n) ==> x != 0
  {
    x & (1 << (n - 1)) != 0
  }

  /** Setting or clearing field `n` gives it the value written. */
  lemma WriteSets8(x: bv8, n: bv8, v: bool)
    requires 1 <= n <= FlagFieldCount
    ensures FieldBit8(if v then x | (1 << (n - 1)) else x & !(1 << (n - 1)), n) == v
  {
  }

  /** Setting or clearing field `n` leaves field `k` alone. */
  lemma WriteKeeps8(x: bv8, n: bv8, v: bool, k: bv8)
    requires 1 <= n <= FlagFieldCount && 1 <= k <= FlagFieldCount && k != n
    ensures FieldBit8(if v then x | (1 << (n - 1)) else x & !(1 << (n - 1)), k) == FieldBit8(x, k)
  {
  }

  /** The byte after the bit-field assignment `fb.bit<n> = v`. */
  function WithField8(x: bv8, n: bv8, v: bool): (r: bv8)
    requires 1 <= n <= FlagFieldCount
    ensures FieldBit8(r, n) == v
    ensures forall k :: 1 <= k <= FlagFieldCount && k != n ==> FieldBit8(r, k) == FieldBit8(x, k)
  {
    var r := if v then x | (1 << (n - 1)) else x & !(1 << (n - 1));
    WriteSets8(x, n, v);
    assert forall k :: 1 <= k <= FlagFieldCount && k != n ==> FieldBit8(r, k) == FieldBit8(x, k) by {
      forall k | 1 <= k <= FlagFieldCount && k != n
        ensures FieldBit8(r, k) == FieldBit8(x, k)
      {
        WriteKeeps8(x, n, v, k);
      }
    }
    r
  }

  /** `x & Mask8(k)` keeps the fields `bit01` .. `bit<k>`. */
  function Mask8(k: bv8): bv8
    requires k <= FlagFieldCount
  {
    if k == FlagFieldCount then 0xFF else (1 << k) - 1
  }

  lemma Mask8Step(k: bv8)
    requires 1 <= k <= FlagFieldCount
    ensures Mask8(k) == Mask8(k - 1) | (1 << (k - 1))
  {
  }

  lemma FieldAgree8(x: bv8, y: bv8, k: bv8)
    requires 1 <= k <= FlagFieldCount
    requires FieldBit8(x, k) == FieldBit8(y, k)
    ensures x & (1 << (k - 1)) == y & (1 << (k - 1))
  {
  }

  lemma Mask8Join(x: bv8, y: bv8, k: bv8)
    requires 1 <= k <= FlagFieldCount
    requires x & Mask8(k - 1) == y & Mask8(k - 1)
    requires x & (1 << (k - 1)) == y & (1 << (k - 1))
    requires Mask8(k) == Mask8(k - 1) | (1 << (k - 1))
    ensures x & Mask8(k) == y & Mask8(k)
  {
  }

  /** `x` and `y` agree on fields `bit01` .. `bit<k>`. */
  ghost predicate FieldsAgree8(x: bv8, y: bv8, k: bv8)
    requires k <= FlagFieldCount
  {
    forall n :: 1 <= n <= k ==> FieldBit8(x, n) == FieldBit8(y, n)
  }

  /** `x` and `y` agree on their low `k` bits. */
  predicate LowBitsAgree8(x: bv8, y: bv8, k: bv8)
    requires k <= FlagFieldCount
  {
    x & Mask8(k) == y & Mask8(k)
  }

  lemma FieldsAgree8Down(x: bv8, y: bv8, k: bv8)
    requires 1 <= k <= FlagFieldCount
    requires FieldsAgree8(x, y, k)
    ensures FieldsAgree8(x, y, k - 1)
    ensures FieldBit8(x, k) == FieldBit8(y, k)
  {
  }

  /** Agreement on the low `k - 1` bits and on field `bit<k>` is agreement on the low `k` bits. */
  lemma LowBitsAgree8Step(x: bv8, y: bv8, k: bv8)
    requires 1 <= k <= FlagFieldCount
    requires LowBitsAgree8(x, y, k - 1)
    requires FieldBit8(x, k) == FieldBit8(y, k)
    ensures LowBitsAgree8(x, y, k)
  {
    FieldAgree8(x, y, k);
    Mask8Step(k);
    Mask8Join(x, y, k);
  }

  lemma {:induction false} LowFields8Agree(x: bv8, y: bv8, k: bv8)
    requires k <= FlagFieldCount
    requires FieldsAgree8(x, y, k)
    ensures LowBitsAgree8(x, y, k)
    decreases k
  {
    if k > 0 {
      FieldsAgree8Down(x, y, k);
      LowFields8Agree(x, y, k - 1);
      LowBitsAgree8Step(x, y, k);
    }
  }

  /** The two views of `_FLAG` agree: the byte is fixed by its eight fields. */
  lemma Byte8Ext(x: bv8, y: bv8)
    requires forall n :: 1 <= n <= FlagFieldCount ==> FieldBit8(x, n) == FieldBit8(y, n)
    ensures x == y
  {
    LowFields8Agree(x, y, FlagFieldCount);
    assert Mask8(FlagFieldCount) == 0xFF;
  }

  /**
   * A bit-field assignment has one possible outcome on the byte view: the
   * byte whose field `n` is `v` and whose other fields are those of `x`.
   */
  lemma WithField8Unique(x: bv8, n: bv8, v: bool, y: bv8)
    requires 1 <= n <= FlagFieldCount
    requires FieldBit8(y, n) == v
    requires forall k :: 1 <= k <= FlagFieldCount && k != n ==> FieldBit8(y, k) == FieldBit8(x, k)
    ensures y == WithField8(x, n, v)
  {
    Byte8Ext(y, WithField8(x, n, v));
  }

  // ---------------------------------------------------------------------
  // _mDATA: one 32-bit word, thirty-two one-bit fields

  /**
   * Field `bit<n>` of an `_mDATA` word, read through the word view: bit
   * n - 1, counted from the least significant bit.
   */
  predicate FieldBit32(w: bv32, n: bv32)
    requires 1 <= n <= MonthFieldCount
    ensures FieldBit32(w, n) ==> w != 0
  {
    w & (1 << (n - 1)) != 0
  }

  /** Shifting field `n` down to bit 0 and masking reads it as 0 or 1. */
  lemma ShiftAndMask32(w: bv32, n: bv32)
    requires 1 <= n <= MonthFieldCount
    ensures (w >> (n - 1)) & 1 <= 1
    ensures (w >> (n - 1)) & 1 == 1 <==> FieldBit32(w, n)
  {
  }

  /** Setting or clearing field `n` gives it the value written. */
  lemma WriteSets32(w: bv32, n: bv32, v: bool)
    requires 1 <= n <= MonthFieldCount
    ensures FieldBit32(if v then w | (1 << (n - 1)) else w & !(1 << (n - 1)), n) == v
  {
  }

  /** Setting or clearing field `n` leaves field `k` alone. */
  lemma WriteKeeps32(w: bv32, n: bv32, v: bool, k: bv32)
    requires 1 <= n <= MonthFieldCount && 1 <= k <= MonthFieldCount && k != n
    ensures FieldBit32(if v then w | (1 << (n - 1)) else w & !(1 << (n - 1)), k) == FieldBit32(w, k)
  {
  }

  /** The word after the bit-field assignment `d.bit<n> = v`. */
  function WithField32(w: bv32, n: bv32, v: bool): (r: bv32)
    requires 1 <= n <= MonthFieldCount
    ensures FieldBit32(r, n) == v
    ensures forall k :: 1 <= k <= MonthFieldCount && k != n ==> FieldBit32(r, k) == FieldBit32(w, k)
  {
    var r := if v then w | (1 << (n - 1)) else w & !(1 << (n - 1));
    WriteSets32(w, n, v);
    assert forall k :: 1 <= k <= MonthFieldCount && k != n ==> FieldBit32(r, k) == FieldBit32(w, k) by {
      forall k | 1 <= k <= MonthFieldCount && k != n
        ensures FieldBit32(r, k) == FieldBit32(w, k)
      {
        WriteKeeps32(w, n, v, k);
      }
    }
    r
  }

  /** `w & Mask32(k)` keeps the fields `bit01` .. `bit<k>`. */
  function Mask32(k: bv32): bv32
    requires k <= MonthFieldCount
  {
    if k == MonthFieldCount then 0xFFFF_FFFF else (1 << k) - 1
  }

  lemma Mask32Step(k: bv32)
    requires 1 <= k <= MonthFieldCount
    ensures Mask32(k) == Mask32(k - 1) | (1 << (k - 1))
  {
  }

  lemma FieldAgree32(x: bv32, y: bv32, k: bv32)
    requires 1 <= k <= MonthFieldCount
    requires FieldBit32(x, k) == FieldBit32(y, k)
    ensures x & (1 << (k - 1)) == y & (1 << (k - 1))
  {
  }

  lemma Mask32Join(x: bv32, y: bv32, k: bv32)
    requires 1 <= k <= MonthFieldCount
    requires x & Mask32(k - 1) == y & Mask32(k - 1)
    requires x & (1 << (k - 1)) == y & (1 << (k - 1))
    requires Mask32(k) == Mask32(k - 1) | (1 << (k - 1))
    ensures x & Mask32(k) == y & Mask32(k)
  {
  }

  /** `x` and `y` agree on fields `bit01` .. `bit<k>`. */
  ghost predicate FieldsAgree32(x: bv32, y: bv32, k: bv32)
    requires k <= MonthFieldCount
  {
    forall n :: 1 <= n <= k ==> FieldBit32(x, n) == FieldBit32(y, n)
  }

  /** `x` and `y` agree on their low `k` bits. */
  predicate LowBitsAgree32(x: bv32, y: bv32, k: bv32)
    requires k <= MonthFieldCount
  {
    x & Mask32(k) == y & Mask32(k)
  }

  lemma FieldsAgree32Down(x: bv32, y: bv32, k: bv32)
    requires 1 <= k <= MonthFieldCount
    requires FieldsAgree32(x, y, k)
    ensures FieldsAgree32(x, y, k - 1)
    ensures FieldBit32(x, k) == FieldBit32(y, k)
  {
  }

  /** Agreement on the low `k - 1` bits and on field `bit<k>` is agreement on the low `k` bits. */
  lemma LowBitsAgree32Step(x: bv32, y: bv32, k: bv32)
    requires 1 <= k <= MonthFieldCount
    requires LowBitsAgree32(x, y, k - 1)
    requires FieldBit32(x, k) == FieldBit32(y, k)
    ensures LowBitsAgree32(x, y, k)
  {
    FieldAgree32(x, y, k);
    Mask32Step(k);
    Mask32Join(x, y, k);
  }

  lemma {:induction false} LowFields32Agree(x: bv32, y: bv32, k: bv32)
    requires k <= MonthFieldCount
    requires FieldsAgree32(x, y, k)
    ensures LowBitsAgree32(x, y, k)
    decreases k
  {
    if k > 0 {
      FieldsAgree32Down(x, y, k);
      LowFields32Agree(x, y, k - 1);
      LowBitsAgree32Step(x, y, k);
    }
  }

  /** The two views of `_mDATA` agree: the word is fixed by its 32 fields. */
  lemma Word32Ext(x: bv32, y: bv32)
    requires forall n :: 1 <= n <= MonthFieldCount ==> FieldBit32(x, n) == FieldBit32(y, n)
    ensures x == y
  {
    LowFields32Agree(x, y, MonthFieldCount);
    assert Mask32(MonthFieldCount) == 0xFFFF_FFFF;
  }

  // ---------------------------------------------------------------------
  // The named flags: `#define` aliases for fields of `flag` and `err_flag`

  /** The two `_FLAG` registers, `flag` and `err_flag`. */
  datatype Register = Flag | ErrFlag

  /** The flags PrvSetting.h names. */
  datatype NamedFlag =
    | HolidayJdg    // today is a weekday that is also a holiday
    | AdjustSync    // after first boot, reset the NTP update period at minute 0, second 0
    | HourDigit     // cursor adjustment for one- or two-digit hours
    | WifiInitErr   // the WiFi connection failed
    | UdpBeginErr   // the UDP socket could not be opened

  /**
   * The register a named flag is a field of: the operational flags use the
   * low fields of `flag`, the error flags the high fields of `err_flag`.
   */
  function RegisterOf(f: NamedFlag): (r: Register)
    ensures r == ErrFlag <==> FieldOf(f) > 3
  {
    match f
    case HolidayJdg | AdjustSync | HourDigit => Flag
    case WifiInitErr | UdpBeginErr => ErrFlag
  }

  /** The `_FB` field (`bit01` .. `bit08`) a named flag is an alias for. */
  function FieldOf(f: NamedFlag): (n: bv8)
    ensures 1 <= n <= FlagFieldCount
  {
    match f
    case HolidayJdg => 1
    case AdjustSync => 2
    case HourDigit => 3
    case WifiInitErr => 8
    case UdpBeginErr => 7
  }

  /** The two registers, each as its whole byte. */
  datatype Registers = Registers(flag: bv8, errFlag: bv8)
  {
    /** The whole byte of register `r`. */
    function Byte(r: Register): bv8
    {
      match r
      case Flag => flag
      case ErrFlag => errFlag
    }

    /**
     * Reading a named flag: its field of its register, which is bit
     * `FieldOf(f) - 1` of that register's whole byte.
     */
    predicate Read(f: NamedFlag)
      ensures Read(f) <==> (Byte(RegisterOf(f)) >> (FieldOf(f) - 1)) & 1 == 1
    {
      FieldBit8(Byte(RegisterOf(f)), FieldOf(f))
    }

    /** Assigning `v` to a named flag: a bit-field write to its register. */
    function Write(f: NamedFlag, v: bool): (r: Registers)
      ensures r.Byte(RegisterOf(f)) == WithField8(Byte(RegisterOf(f)), FieldOf(f), v)
      ensures forall g :: RegisterOf(g) != RegisterOf(f) ==> r.Byte(RegisterOf(g)) == Byte(RegisterOf(g))
    {
      match RegisterOf(f)
      case Flag => Registers(WithField8(flag, FieldOf(f), v), errFlag)
      case ErrFlag => Registers(flag, WithField8(errFlag, FieldOf(f), v))
    }
  }

  /**
   * The bit positions of the named flags, counted from the least
   * significant bit of their register: `flag` bits 0, 1 and 2 and
   * `err_flag` bits 7 and 6.
   */
  lemma NamedFlagPositions()
    ensures WithField8(0, FieldOf(HolidayJdg), true) == 0x01
    ensures WithField8(0, FieldOf(AdjustSync), true) == 0x02
    ensures WithField8(0, FieldOf(HourDigit), true) == 0x04
    ensures WithField8(0, FieldOf(WifiInitErr), true) == 0x80
    ensures WithField8(0, FieldOf(UdpBeginErr), true) == 0x40
    ensures RegisterOf(HolidayJdg) == RegisterOf(AdjustSync) == RegisterOf(HourDigit) == Flag
    ensures RegisterOf(WifiInitErr) == RegisterOf(UdpBeginErr) == ErrFlag
  {
  }

  /** No two named flags are aliases for the same field of the same register. */
  lemma NamedFlagsDisjoint(f: NamedFlag, g: NamedFlag)
    requires f != g && RegisterOf(f) == RegisterOf(g)
    ensures FieldOf(f) != FieldOf(g)
  {
  }

  /** Reading a named flag after assigning it gives back the value assigned. */
  lemma WriteReadRoundTrip(s: Registers, f: NamedFlag, v: bool)
    ensures s.Write(f, v).Read(f) == v
  {
  }

  /**
   * Assigning one named flag leaves every other named flag, in the same
   * register or in the other one, as it was.
   */
  lemma WriteNonInterference(s: Registers, f: NamedFlag, v: bool, g: NamedFlag)
    requires f != g
    ensures s.Write(f, v).Read(g) == s.Read(g)
  {
  }

  /** Assigning a named flag its current value changes nothing. */
  lemma WriteCurrentValue(s: Registers, f: NamedFlag)
    ensures s.Write(f, s.Read(f)) == s
  {
  }
}
