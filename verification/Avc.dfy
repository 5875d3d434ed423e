/**
 The syntax of H.264 that the streaming code looks at, written from the standard
 and not from the code: unit types (ITU-T H.264, section 7.3.1), the bytes without
 emulation prevention, and Exp-Golomb numbers (section 9.1).
 */
module Avc {
  import opened Bytes
  import opened Options

  /** The five bits of nal_unit_type; a unit without bytes counts as type 0. */
  function UnitType(nal: seq<byte>): nat {
    if nal == [] then 0 else nal[0] as nat % 32
  }

  /** The payload without its emulation prevention bytes. */
  function Rbsp(b: seq<byte>): seq<byte> {
    if b == [] then []
    else if |b| >= 3 && b[0] == 0 && b[1] == 0 && b[2] == 3 then [0, 0] + Rbsp(b[3..])
    else [b[0]] + Rbsp(b[1..])
  }

  /** The bits of a byte, the most significant first. */
  function ByteBits(b: byte): seq<nat> {
    var n := b as nat;
    [n / 128, n / 64 % 2, n / 32 % 2, n / 16 % 2, n / 8 % 2, n / 4 % 2, n / 2 % 2, n % 2]
  }

  function Bits(b: seq<byte>): seq<nat> {
    if b == [] then [] else ByteBits(b[0]) + Bits(b[1..])
  }

  function Power2(n: nat): (p: nat)
    ensures p > 0
    ensures n > 0 ==> p > 1
  {
    if n == 0 then 1 else 2 * Power2(n - 1)
  }

  function Number(bits: seq<nat>): nat {
    if bits == [] then 0 else 2 * Number(bits[..|bits| - 1]) + bits[|bits| - 1]
  }

  function LeadingZeros(bits: seq<nat>): (n: nat)
    ensures n <= |bits|
    ensures n == 0 <==> bits == [] || bits[0] != 0
  {
    if bits == [] || bits[0] != 0 then 0 else 1 + LeadingZeros(bits[1..])
  }

  /** The number ue(v) in front of some bits, if they hold all of it. */
  function ReadUe(bits: seq<nat>): Option<nat> {
    var n := LeadingZeros(bits);
    if 2 * n + 1 > |bits| then None else Some(Power2(n) - 1 + Number(bits[n + 1..2 * n + 1]))
  }

  /** The first field of a slice header, first_mb_in_slice. */
  function FirstMb(nal: seq<byte>): Option<nat> {
    if nal == [] then None else ReadUe(Bits(Rbsp(nal[1..])))
  }

  /** A slice that begins a picture from which decoding can start. */
  predicate BeginsIdr(nal: seq<byte>) {
    UnitType(nal) == 5 && FirstMb(nal) == Some(0)
  }

  lemma {:induction false} ReadsZero(bits: seq<nat>)
    ensures ReadUe(bits) == Some(0) <==> bits != [] && bits[0] != 0
  {
  }

  /** The field is zero exactly if the bit after the header byte is set. */
  lemma {:induction false} FirstMbIsZero(nal: seq<byte>)
    ensures FirstMb(nal) == Some(0) <==> |nal| > 1 && nal[1] >= 128
  {
    if |nal| > 1 {
      var b := nal[1..];
      assert Rbsp(b)[0] == b[0];
      assert Bits(Rbsp(b))[0] == b[0] as nat / 128;
      ReadsZero(Bits(Rbsp(b)));
    }
  }
}
