/**
 * The globals of PrvSetting.cpp and the three functions over them.
 *
 * `mdata` holds one `_mDATA` word per month, January first; `flag` and
 * `err_flag` are the two `_FLAG` registers.  The C program keeps them as
 * statics; here they are the fields of one `Globals` object, whose
 * constructor plays the part of the zero initialisation of C statics.
 */
module PrvSetting {
  import opened PrvLayout

  /** Number of entries of `mdata`, one per month. */
  const MonthCount: nat := 12

  /** The value `set_daydata` first gives every month: only the reserved field set. */
  const Sentinel: bv32 := 0x8000_0000

  /**
   * The table `set_daydata` leaves behind: the sentinel in every month, and
   * in January also field `bit01` (January 1st, the one configured holiday).
   */
  function DayDataTable(): (t: seq<bv32>)
    ensures |t| == MonthCount
    ensures t[0] == WithField32(Sentinel, 1, true)
    ensures forall m :: 1 <= m < MonthCount ==> t[m] == Sentinel
  {
    [0x8000_0001, Sentinel, Sentinel, Sentinel, Sentinel, Sentinel,
     Sentinel, Sentinel, Sentinel, Sentinel, Sentinel, Sentinel]
  }

  /** Whether `table` marks day `day` (field `bit<day>`) of month `month`. */
  predicate Marked(table: seq<bv32>, month: nat, day: bv32)
    requires |table| == MonthCount && 1 <= month <= MonthCount && 1 <= day <= MonthFieldCount
  {
    FieldBit32(table[month - 1], day)
  }

  /** After `set_daydata` the reserved field of every month is 1. */
  lemma DayDataSentinel(month: nat)
    requires 1 <= month <= MonthCount
    ensures Marked(DayDataTable(), month, ReservedField)
  {
  }

  /**
   * After `set_daydata` January 1st is the only day marked: every other day
   * field of every month is 0.
   */
  lemma DayDataMarks(month: nat, day: bv32)
    requires 1 <= month <= MonthCount && 1 <= day < ReservedField
    ensures Marked(DayDataTable(), month, day) == (month == 1 && day == 1)
  {
  }

  /**
   * The table `set_daydata` leaves is the only table in which exactly
   * January 1st and the reserved fields are marked.
   */
  lemma DayDataCharacterised(table: seq<bv32>)
    requires |table| == MonthCount
    ensures table == DayDataTable() <==>
      forall month: nat, day: bv32 :: 1 <= month <= MonthCount && 1 <= day <= MonthFieldCount ==>
        Marked(table, month, day) == ((month == 1 && day == 1) || day == ReservedField)
  {
    if forall month: nat, day: bv32 :: 1 <= month <= MonthCount && 1 <= day <= MonthFieldCount ==>
        Marked(table, month, day) == ((month == 1 && day == 1) || day == ReservedField)
    {
      forall i | 0 <= i < MonthCount
        ensures table[i] == DayDataTable()[i]
      {
        forall n: bv32 | 1 <= n <= MonthFieldCount
          ensures FieldBit32(table[i], n) == FieldBit32(DayDataTable()[i], n)
        {
          assert Marked(table, i + 1, n) == ((i + 1 == 1 && n == 1) || n == ReservedField);
          if n == ReservedField {
            DayDataSentinel(i + 1);
          } else {
            DayDataMarks(i + 1, n);
          }
        }
        Word32Ext(table[i], DayDataTable()[i]);
      }
    } else {
      forall month: nat, day: bv32 | 1 <= month <= MonthCount && 1 <= day <= MonthFieldCount
        ensures Marked(DayDataTable(), month, day) == ((month == 1 && day == 1) || day == ReservedField)
      {
        if day == ReservedField {
          DayDataSentinel(month);
        } else {
          DayDataMarks(month, day);
        }
      }
    }
  }

  /** The registers `flag_init` leaves: `flag_adjustsync` set, nothing else. */
  const FlagInitRegisters: Registers := Registers(0x02, 0x00)

  /**
   * `flag_init` clears both registers and then assigns 1 to
   * `flag_adjustsync`; that leaves `flag == 0x02` and `err_flag == 0x00`,
   * whatever the registers held before.
   */
  lemma FlagInitResult()
    ensures Registers(0x00, 0x00).Write(AdjustSync, true) == FlagInitRegisters
  {
  }

  /** After `flag_init` the only named flag that reads 1 is `flag_adjustsync`. */
  lemma FlagInitReads(f: NamedFlag)
    ensures FlagInitRegisters.Read(f) == (f == AdjustSync)
  {
  }

  /**
   * The registers `flag_init` leaves are the only ones in which field
   * `bit02` of `flag` is the one field set.
   */
  lemma FlagInitCharacterised(s: Registers)
    ensures s == FlagInitRegisters <==>
      (forall n :: 1 <= n <= FlagFieldCount ==> FieldBit8(s.flag, n) == (n == 2)) &&
      (forall n :: 1 <= n <= FlagFieldCount ==> !FieldBit8(s.errFlag, n))
  {
    if (forall n :: 1 <= n <= FlagFieldCount ==> FieldBit8(s.flag, n) == (n == 2)) &&
       (forall n :: 1 <= n <= FlagFieldCount ==> !FieldBit8(s.errFlag, n))
    {
      forall n | 1 <= n <= FlagFieldCount ensures FieldBit8(s.flag, n) == FieldBit8(0x02, n) {
        assert FieldBit8(s.flag, n) == (n == 2);
      }
      Byte8Ext(s.flag, 0x02);
      forall n | 1 <= n <= FlagFieldCount ensures FieldBit8(s.errFlag, n) == FieldBit8(0x00, n) {
        assert !FieldBit8(s.errFlag, n);
      }
      Byte8Ext(s.errFlag, 0x00);
    }
  }

  /** The globals of PrvSetting.cpp. */
  class Globals {
    /** `mdata[12]`: one `_mDATA` word per month, index 0 is January. */
    var mdata: array<bv32>
    /** `flag`: the operational flags. */
    var flag: bv8
    /** `err_flag`: the error flags. */
    var errFlag: bv8

    ghost predicate Valid()
      reads this
    {
      mdata.Length == MonthCount
    }

    /** Both registers, each as its whole byte. */
    function Flags(): Registers
      reads this
    {
      Registers(flag, errFlag)
    }

    /** C statics start out zero. */
    constructor ()
      ensures Valid() && fresh(mdata)
      ensures mdata[..] == seq(MonthCount, _ => 0)
      ensures flag == 0x00 && errFlag == 0x00
    {
      mdata := new bv32[MonthCount](_ => 0);
      flag := 0x00;
      errFlag := 0x00;
    }

    /**
     * `set_daydata`: overwrite every month with the sentinel, then mark
     * January 1st.  The new table does not depend on the old one, so a
     * second call changes nothing.
     */
    method SetDayData()
      requires Valid()
      modifies mdata
      ensures Valid()
      ensures mdata[..] == DayDataTable()
      ensures flag == old(flag) && errFlag == old(errFlag)
    {
      mdata[0] := Sentinel;
      mdata[1] := Sentinel;
      mdata[2] := Sentinel;
      mdata[3] := Sentinel;
      mdata[4] := Sentinel;
      mdata[5] := Sentinel;
      mdata[6] := Sentinel;
      mdata[7] := Sentinel;
      mdata[8] := Sentinel;
      mdata[9] := Sentinel;
      mdata[10] := Sentinel;
      mdata[11] := Sentinel;
      mdata[0] := WithField32(mdata[0], 1, true);
    }

    /**
     * `get_daydata`: field `bit<day>` of the word of month `month`, as 0 or 1.
     * The shift is defined for `day` up to 32, so day 32 reads the reserved
     * field.  The masked word is 0 or 1, so narrowing it to the `uint8_t`
     * result keeps its value.
     */
    function GetDayData(month: bv8, day: bv8): (r: bv8)
      reads this, mdata
      requires Valid()
      requires 1 <= month <= 12 && 1 <= day <= 32
      ensures r == 0 || r == 1
      ensures r == 1 <==> Marked(mdata[..], month as nat, day as bv32)
    {
      var word, field := mdata[month as int - 1], day as bv32;
      ShiftAndMask32(word, field);
      if (word >> (field - 1)) & 1 == 1 then 1 else 0
    }

    /** An assignment `flag_<name> = v` to one of the named bit-fields. */
    method WriteFlag(f: NamedFlag, v: bool)
      requires Valid()
      modifies this`flag, this`errFlag
      ensures Valid()
      ensures Flags() == old(Flags()).Write(f, v)
    {
      match RegisterOf(f)
      case Flag => flag := WithField8(flag, FieldOf(f), v);
      case ErrFlag => errFlag := WithField8(errFlag, FieldOf(f), v);
    }

    /** `flag_init`: clear both registers, then set `flag_adjustsync`. */
    method FlagInit()
      requires Valid()
      modifies this`flag, this`errFlag
      ensures Valid()
      ensures Flags() == FlagInitRegisters
    {
      flag := 0x00;
      errFlag := 0x00;
      WriteFlag(AdjustSync, true);
    }
  }

  /**
   * Queries after `set_daydata`: `get_daydata(1, 1)` is 1, every other day
   * 1..31 of every month is 0, and day 32 reads the reserved field, 1.
   */
  lemma QueriesAfterSetDayData(g: Globals, month: bv8, day: bv8)
    requires g.Valid() && g.mdata[..] == DayDataTable()
    requires 1 <= month <= 12 && 1 <= day <= 32
    ensures g.GetDayData(month, day) == if (month == 1 && day == 1) || day == 32 then 1 else 0
  {
  }
}
