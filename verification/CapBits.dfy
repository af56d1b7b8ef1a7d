/** Capability bits, and their three-bit form on the wire. */
module CapBits {
  datatype Bit =
    | Pin | AuthShared | AuthExcl | LinkShared | XattrShared | XattrExcl
    | FileShared | FileCache | FileWr | FileExcl

  type Mask = set<Bit>

  const WR_DATA: Mask := {FileWr, FileExcl}
  const ANY_DIRTY: Mask := {AuthExcl, FileWr, FileExcl, XattrExcl}

  const WIRE_R: bv8 := 1
  const WIRE_W: bv8 := 2
  const WIRE_X: bv8 := 4

  /** wire_capset_to_kernel_bits. */
  function FromWire(wire: bv8): Mask {
    {Pin}
    + (if wire & WIRE_R != 0 then {AuthShared, FileShared, FileCache, XattrShared, LinkShared} else {})
    + (if wire & WIRE_W != 0 then {FileWr} else {})
    + (if wire & WIRE_X != 0 then {FileExcl, AuthExcl, XattrExcl} else {})
  }

  /** kernel_bits_to_wire_capset. */
  function ToWire(bits: Mask): bv8 {
    (if bits * {FileShared, FileCache, AuthShared} != {} then WIRE_R else 0)
    | (if FileWr in bits then WIRE_W else 0)
    | (if bits * {FileExcl, AuthExcl, XattrExcl} != {} then WIRE_X else 0)
  }

  lemma WireBits(r: bool, w: bool, x: bool)
    ensures var v := (if r then WIRE_R else 0) | (if w then WIRE_W else 0) | (if x then WIRE_X else 0);
      (v & WIRE_R != 0 <==> r) && (v & WIRE_W != 0 <==> w) && (v & WIRE_X != 0 <==> x) && v & 7 == v
  {
  }

  lemma ThreeBits(v: bv8, u: bv8)
    requires (v & WIRE_R != 0 <==> u & WIRE_R != 0) && (v & WIRE_W != 0 <==> u & WIRE_W != 0)
    requires (v & WIRE_X != 0 <==> u & WIRE_X != 0) && v & 7 == v
    ensures v == u & 7
  {
  }

  /** What was sent on the wire comes back, the undefined upper bits aside. */
  lemma WireRoundTrip(wire: bv8)
    ensures ToWire(FromWire(wire)) == wire & 7
  {
    var bits := FromWire(wire);
    var r, w := bits * {FileShared, FileCache, AuthShared} != {}, FileWr in bits;
    var x := bits * {FileExcl, AuthExcl, XattrExcl} != {};
    assert wire & WIRE_R != 0 ==> FileShared in bits * {FileShared, FileCache, AuthShared};
    assert wire & WIRE_X != 0 ==> FileExcl in bits * {FileExcl, AuthExcl, XattrExcl};
    WireBits(r, w, x);
    ThreeBits(ToWire(bits), wire);
  }

  /**
   * A request translated to the wire and granted in full covers it, exactly if it does not consist,
   * as far as read sharing goes, of extended-attribute or link sharing alone.
   */
  lemma RequestCovered(bits: Mask)
    ensures bits <= FromWire(ToWire(bits)) <==>
      (bits * {XattrShared, LinkShared} == {} || bits * {FileShared, FileCache, AuthShared} != {})
  {
    var r, w := bits * {FileShared, FileCache, AuthShared} != {}, FileWr in bits;
    var x := bits * {FileExcl, AuthExcl, XattrExcl} != {};
    WireBits(r, w, x);
    var back := FromWire(ToWire(bits));
    assert XattrShared in back <==> r;
    assert LinkShared in back <==> r;
    forall b | b in bits && b != XattrShared && b != LinkShared
      ensures b in back
    {
      if b in {FileShared, FileCache, AuthShared} {
        assert b in bits * {FileShared, FileCache, AuthShared};
      } else if b in {FileExcl, AuthExcl, XattrExcl} {
        assert b in bits * {FileExcl, AuthExcl, XattrExcl};
      }
    }
    if bits * {XattrShared, LinkShared} != {} {
      var b :| b in bits * {XattrShared, LinkShared};
      assert b in bits && (b in back <==> r);
    } else {
      assert XattrShared in bits ==> XattrShared in bits * {XattrShared, LinkShared};
      assert LinkShared in bits ==> LinkShared in bits * {XattrShared, LinkShared};
    }
  }
}
