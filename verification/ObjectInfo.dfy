/** Object number, category and flags in one 32-bit word (t_pckobjinfo): bit fields of 19, 5 and 8 bits. */
module ObjectInfo {

  const CATEG_TABLE: bv32 := 0
  const ODBC_TABLE: bv32 := 0xffff_4000
  const CURS_USER: bv32 := 0xffff_8000

  /** IS_ODBC_TABLE. */
  predicate IsOdbcTable(tb: bv32) {
    tb & (ODBC_TABLE | CURS_USER) == ODBC_TABLE
  }

  /** Storing into the bit fields cuts every value to the width of its field. */
  function Pack(objnum: bv32, categ: bv32, flags: bv32): bv32
  {
    (objnum & 0x7_ffff) | ((categ & 0x1f) << 19) | ((flags & 0xff) << 24)
  }

  function ObjnumField(pck: bv32): bv32 { pck & 0x7_ffff }
  function CategField(pck: bv32): bv32 { (pck >> 19) & 0x1f }
  function FlagsField(pck: bv32): bv32 { pck >> 24 }

  predicate LooksOdbc(n: bv32) { n & 0x7_c000 == 0x7_4000 }
  predicate FitsField(n: bv32) { n < 0x8_0000 }
  function AsOdbc(n: bv32): bv32 { n | ODBC_TABLE }

  /** The object number of a table is extended to 32 bits again when its field looks like an ODBC table number. */
  function Extended(n: bv32, categ: bv32): bv32
  {
    if categ == CATEG_TABLE && LooksOdbc(n) then AsOdbc(n) else n
  }

  /** `get_objnum`. */
  function GetObjnum(pck: bv32): bv32
  {
    Extended(ObjnumField(pck), CategField(pck))
  }

  /** The numbers a caller may store: tables up to 0x73fff and from 0x78000 that fit the field and ODBC tables, other
      objects if they fit the field. */
  predicate StorableObjnum(objnum: bv32, categ: bv32)
  {
    if categ == 0 then objnum < 0x7_4000 || 0x7_8000 <= objnum < 0x8_0000 || 0xffff_4000 <= objnum < 0xffff_8000
    else objnum < 0x8_0000
  }

  predicate Admissible(objnum: bv32, categ: bv32, flags: bv32)
  {
    categ < 32 && flags < 256 && StorableObjnum(objnum, categ)
  }

  lemma Fields(objnum: bv32, categ: bv32, flags: bv32)
    ensures ObjnumField(Pack(objnum, categ, flags)) == ObjnumField(objnum)
    ensures CategField(Pack(objnum, categ, flags)) == categ & 0x1f
    ensures FlagsField(Pack(objnum, categ, flags)) == flags & 0xff
  {
  }

  /** Where the fields are in the word, for values that fit them. */
  lemma Layout(objnum: bv32, categ: bv32, flags: bv32)
    requires objnum < 0x8_0000 && categ < 32 && flags < 256
    ensures Pack(objnum, categ, flags) == objnum + (categ << 19) + (flags << 24)
  {
  }

  /** The numbers of ODBC tables, and the numbers of 19 bits that look like them. */
  lemma OdbcRange(n: bv32)
    ensures IsOdbcTable(n) <==> 0xffff_4000 <= n < 0xffff_8000
    ensures FitsField(n) ==> (LooksOdbc(n) <==> 0x7_4000 <= n < 0x7_8000)
  {
  }

  lemma FitsObjnum(n: bv32)
    ensures ObjnumField(n) == n <==> FitsField(n)
  {
  }

  lemma FitsCateg(n: bv32)
    ensures n & 0x1f == n <==> n < 32
  {
  }

  lemma FitsFlags(n: bv32)
    ensures n & 0xff == n <==> n < 256
  {
  }

  lemma FieldLooksTheSame(n: bv32)
    ensures LooksOdbc(ObjnumField(n)) <==> LooksOdbc(n)
  {
  }

  lemma OdbcLooksExtended(n: bv32)
    requires IsOdbcTable(n)
    ensures LooksOdbc(n)
  {
  }

  lemma ExtensionExact(n: bv32)
    requires LooksOdbc(n)
    ensures AsOdbc(ObjnumField(n)) == n <==> IsOdbcTable(n)
  {
  }

  /** The object number is read back if and only if it is storable. */
  lemma ObjnumRoundTrip(objnum: bv32, categ: bv32)
    ensures Extended(ObjnumField(objnum), categ) == objnum <==> StorableObjnum(objnum, categ)
  {
    hide IsOdbcTable, LooksOdbc, AsOdbc, ObjnumField;
    FieldLooksTheSame(objnum);
    FitsObjnum(objnum);
    OdbcRange(objnum);
    if LooksOdbc(objnum) {
      ExtensionExact(objnum);
    } else if IsOdbcTable(objnum) {
      OdbcLooksExtended(objnum);
    }
  }

  lemma ExtensionShifts(n: bv32)
    requires 0x7_4000 <= n < 0x7_8000
    ensures AsOdbc(n) == 0xffff_4000 + (n - 0x7_4000)
  {
  }

  /** What is read back for a number that fits the field: the tables 0x74000 to 0x77fff become the ODBC tables. */
  lemma ReadBack(objnum: bv32, categ: bv32, flags: bv32)
    requires objnum < 0x8_0000 && categ < 32 && flags < 256
    ensures GetObjnum(Pack(objnum, categ, flags)) ==
      if categ == 0 && 0x7_4000 <= objnum < 0x7_8000 then 0xffff_4000 + (objnum - 0x7_4000) else objnum
  {
    hide Pack, AsOdbc, ObjnumField, CategField, LooksOdbc, IsOdbcTable;
    Fields(objnum, categ, flags);
    FitsCateg(categ);
    FitsObjnum(objnum);
    OdbcRange(objnum);
    if 0x7_4000 <= objnum < 0x7_8000 { ExtensionShifts(objnum); }
  }

  /** Unpacking gives back all three values if and only if they are admissible. */
  lemma RoundTrip(objnum: bv32, categ: bv32, flags: bv32)
    ensures var pck := Pack(objnum, categ, flags);
      GetObjnum(pck) == objnum && CategField(pck) == categ && FlagsField(pck) == flags
      <==> Admissible(objnum, categ, flags)
  {
    hide Pack, Extended, StorableObjnum, ObjnumField, CategField, FlagsField;
    Fields(objnum, categ, flags);
    FitsCateg(categ);
    FitsFlags(flags);
    ObjnumRoundTrip(objnum, categ);
  }

  /** So different admissible triples have different words. */
  lemma Injective(o1: bv32, c1: bv32, f1: bv32, o2: bv32, c2: bv32, f2: bv32)
    requires Admissible(o1, c1, f1) && Admissible(o2, c2, f2) && Pack(o1, c1, f1) == Pack(o2, c2, f2)
    ensures o1 == o2 && c1 == c2 && f1 == f2
  {
    RoundTrip(o1, c1, f1);
    RoundTrip(o2, c2, f2);
  }
}
