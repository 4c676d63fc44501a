/**
 * Decoding of a packed `CPUID_Fn00000001_EAX` value into family, model and
 * stepping (`fms`, src/main.rs:91-98).
 *
 * The layout of the packed value, from bit 0 up: stepping (4 bits), base model
 * (4), base family (4), 4 reserved bits, extended model (4), extended family
 * (8), 4 reserved bits.
 */
module Cpuid {

  /** Family, model and stepping, as the u32 triple `fms` returns. */
  datatype Signature = Signature(family: bv32, model: bv32, stepping: bv32)

  /** `fms`: the decoding, written with the program's own shifts and masks. */
  function Fms(cpuid: bv32): Signature
  {
    Signature(((cpuid >> 8) & 0xF) + ((cpuid >> 20) & 0xFF),
              ((cpuid >> 4) & 0xF) + ((cpuid >> 12) & 0xF0),
              cpuid & 0xF)
  }

  /**
   * Stepping is below 16, model at most 0xFF and family at most 0xF + 0xFF = 270,
   * so none of the u32 additions can wrap.
   */
  lemma FmsBounds(cpuid: bv32)
    ensures Fms(cpuid).stepping < 0x10
    ensures Fms(cpuid).model <= 0xFF
    ensures Fms(cpuid).family <= 270
    ensures Fms(cpuid).family as int == ((cpuid >> 8) & 0xF) as int + ((cpuid >> 20) & 0xFF) as int
  {
  }

  /** The bit fields of a packed identifier. */
  datatype Fields = Fields(stepping: bv32, baseModel: bv32, baseFamily: bv32, reservedLow: bv32,
                           extModel: bv32, extFamily: bv32, reservedHigh: bv32)

  /** Each field fits its width. */
  predicate FieldsFit(f: Fields)
  {
    f.stepping < 0x10 && f.baseModel < 0x10 && f.baseFamily < 0x10 && f.reservedLow < 0x10
    && f.extModel < 0x10 && f.extFamily < 0x100 && f.reservedHigh < 0x10
  }

  /** Packs the fields into an identifier. */
  function Pack(f: Fields): bv32
    requires FieldsFit(f)
  {
    f.stepping | (f.baseModel << 4) | (f.baseFamily << 8) | (f.reservedLow << 12)
    | (f.extModel << 16) | (f.extFamily << 20) | (f.reservedHigh << 28)
  }

  /** Splits an identifier into its fields. */
  function Unpack(cpuid: bv32): (f: Fields)
    ensures FieldsFit(f)
  {
    Fields(cpuid & 0xF, (cpuid >> 4) & 0xF, (cpuid >> 8) & 0xF, (cpuid >> 12) & 0xF,
           (cpuid >> 16) & 0xF, (cpuid >> 20) & 0xFF, cpuid >> 28)
  }

  /** Every identifier is the packing of its fields: the field layout covers all 32 bits. */
  lemma PackUnpack(cpuid: bv32)
    ensures Pack(Unpack(cpuid)) == cpuid
  {
  }

  /** The fields determine the identifier: unpacking a packing gives the fields back. */
  lemma UnpackPack(f: Fields)
    requires FieldsFit(f)
    ensures Unpack(Pack(f)) == f
  {
  }

  /**
   * `fms` in terms of the fields: family is base family plus extended family,
   * model is base model with the extended model as its high nibble, stepping is
   * the stepping field; the reserved bits play no part.
   */
  lemma FmsOfFields(cpuid: bv32)
    ensures var f := Unpack(cpuid);
            Fms(cpuid) == Signature(f.baseFamily + f.extFamily,
                                    f.baseModel | (f.extModel << 4),
                                    f.stepping)
  {
    var f := Unpack(cpuid);
    assert (cpuid >> 12) & 0xF0 == f.extModel << 4;
    assert f.baseModel + (f.extModel << 4) == f.baseModel | (f.extModel << 4);
  }

  /** Identifiers that differ only in reserved bits decode alike. */
  lemma FmsIgnoresReservedBits(f: Fields, g: Fields)
    requires FieldsFit(f) && FieldsFit(g)
    requires f.(reservedLow := 0, reservedHigh := 0) == g.(reservedLow := 0, reservedHigh := 0)
    ensures Fms(Pack(f)) == Fms(Pack(g))
  {
    UnpackPack(f);
    UnpackPack(g);
    FmsOfFields(Pack(f));
    FmsOfFields(Pack(g));
  }

  /** Family 19h (Zen 3/4 class) example: 0x00A20F12 decodes to (0x19, 0x21, 0x2). */
  lemma FmsFamily19Example()
    ensures Fms(0x00A20F12) == Signature(0x19, 0x21, 0x2)
  {
  }

  /** 0x00800F12 decodes to family 0x17 (0xF + 0x08), model 0x01, stepping 0x2. */
  lemma FmsFamily17Example()
    ensures Fms(0x00800F12) == Signature(0x17, 0x01, 0x2)
  {
  }
}
