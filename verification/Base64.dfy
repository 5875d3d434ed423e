/**
 The base64 encoder and decoder: bit accumulators over 32-bit words that wrap,
 compared with the encoding of RFC 4648, section 4.
 */
module Base64 {
  import opened Bytes
  import opened Options

  const B64 := "ABCDEFGHIJKLMNOP" + "QRSTUVWXYZabcdef" + "ghijklmnopqrstuv" + "wxyz0123456789+/"

  const NONE: nat := 0xff

  /** The value of each symbol from '+' to 'z'. */
  const MAP2: seq<nat> :=
    [0x3e, 0xff, 0xff, 0xff, 0x3f, 0x34, 0x35, 0x36, 0x37, 0x38, 0x39, 0x3a, 0x3b, 0x3c, 0x3d, 0xff] +
    [0xff, 0xff, 0xff, 0xff, 0xff, 0xff, 0x00, 0x01, 0x02, 0x03, 0x04, 0x05, 0x06, 0x07, 0x08, 0x09] +
    [0x0a, 0x0b, 0x0c, 0x0d, 0x0e, 0x0f, 0x10, 0x11, 0x12, 0x13, 0x14, 0x15, 0x16, 0x17, 0x18, 0x19] +
    [0xff, 0xff, 0xff, 0xff, 0xff, 0xff, 0x1a, 0x1b, 0x1c, 0x1d, 0x1e, 0x1f, 0x20, 0x21, 0x22, 0x23] +
    [0x24, 0x25, 0x26, 0x27, 0x28, 0x29, 0x2a, 0x2b, 0x2c, 0x2d, 0x2e, 0x2f, 0x30, 0x31, 0x32, 0x33]

  /** The terminator or the padding, where the decoder stops. */
  predicate Stops(c: char) {
    c == 0 as char || c == '='
  }

  /** The value of a symbol in a table, or NONE. */
  function Value(map2: seq<nat>, c: char): nat {
    var index := c as int - 43;
    if index < 0 || index >= |map2| then NONE else map2[index]
  }

  predicate Decodes(b64: string, map2: seq<nat>, v: nat)
    requires v < |b64|
  {
    Value(map2, b64[v]) == v
  }

  /** Two tables of which the second undoes the first and has no value for the padding. */
  ghost predicate Inverse(b64: string, map2: seq<nat>) {
    |b64| == 64 && Value(map2, '=') == NONE && forall v: nat :: v < 64 ==> Decodes(b64, map2, v)
  }

  predicate InTables(v: nat)
    requires v < 64
  {
    |B64| == 64 && Decodes(B64, MAP2, v)
  }

  lemma {:induction false} Row0()
    ensures forall v: nat :: 0 <= v < 16 ==> InTables(v)
  {
  }

  lemma {:induction false} Row1()
    ensures forall v: nat :: 16 <= v < 32 ==> InTables(v)
  {
  }

  lemma {:induction false} Row2()
    ensures forall v: nat :: 32 <= v < 48 ==> InTables(v)
  {
  }

  lemma {:induction false} Row3()
    ensures forall v: nat :: 48 <= v < 64 ==> InTables(v)
  {
  }

  /** The two tables of the source are inverse. */
  lemma {:induction false} TablesAreInverse()
    ensures Inverse(B64, MAP2)
  {
    Row0();
    Row1();
    Row2();
    Row3();
    forall v: nat | v < 64
      ensures Decodes(B64, MAP2, v)
    {
      assert InTables(v);
    }
  }

  // ---------------------------------------------------------------- the encoding of the standard

  /** The symbol of a value, by the ranges of table 1 of RFC 4648. */
  function Symbol(v: nat): char
    requires v < 64
  {
    if v < 26 then 'A' + v as char
    else if v < 52 then 'a' + (v - 26) as char
    else if v < 62 then '0' + (v - 52) as char
    else if v == 62 then '+'
    else '/'
  }

  predicate Spelled(v: nat)
    requires v < 64
  {
    |B64| == 64 && B64[v] == Symbol(v)
  }

  lemma {:induction false} Capitals()
    ensures forall v: nat :: 0 <= v < 26 ==> Spelled(v)
  {
  }

  lemma {:induction false} SmallLetters()
    ensures forall v: nat :: 26 <= v < 52 ==> Spelled(v)
  {
  }

  lemma {:induction false} DigitsAndSigns()
    ensures forall v: nat :: 52 <= v < 64 ==> Spelled(v)
  {
  }

  /** The table of the source is the alphabet of the standard, and the other one its inverse. */
  lemma {:induction false} AlphabetIsStandard(v: nat)
    requires v < 64
    ensures |B64| == 64 && B64[v] == Symbol(v) && Value(MAP2, Symbol(v)) == v
  {
    Capitals();
    SmallLetters();
    DigitsAndSigns();
    TablesAreInverse();
    assert Spelled(v) && Decodes(B64, MAP2, v);
  }

  /** The four symbols of 24 bits. */
  function Quantum(b64: string, n: nat): (r: string)
    requires |b64| == 64 && n < 0x100_0000
    ensures |r| == 4
  {
    [b64[n / 262144], b64[n / 4096 % 64], b64[n / 64 % 64], b64[n % 64]]
  }

  function ByteAt(s: seq<byte>, i: nat): (b: nat)
    ensures b < 256
  {
    if i < |s| then s[i] as nat else 0
  }

  /** The first 24 bits of s, with zero bits after its end. */
  function First24(s: seq<byte>): (n: nat)
    ensures n < 0x100_0000
  {
    ByteAt(s, 0) * 65536 + ByteAt(s, 1) * 256 + ByteAt(s, 2)
  }

  function Encode(b64: string, s: seq<byte>): string
    requires |b64| == 64
    decreases |s|
  {
    var q := Quantum(b64, First24(s));
    if |s| == 0 then ""
    else if |s| == 1 then q[..2] + "=="
    else if |s| == 2 then q[..3] + "="
    else q + Encode(b64, s[3..])
  }

  /** The r-th group of six bits of three bytes. */
  function Six(a: nat, b: nat, c: nat, r: nat): (v: nat)
    requires a < 256 && b < 256 && c < 256
    ensures v < 64
  {
    if r == 0 then a / 4
    else if r == 1 then a % 4 * 16 + b / 16
    else if r == 2 then b % 16 * 4 + c / 64
    else c % 64
  }

  /** The j-th group of six bits of s, with zero bits after its end. */
  function Sextet(s: seq<byte>, j: nat): (v: nat)
    ensures v < 64
    decreases j
  {
    if j < 4 then Six(ByteAt(s, 0), ByteAt(s, 1), ByteAt(s, 2), j)
    else if |s| < 3 then 0
    else Sextet(s[3..], j - 4)
  }

  lemma {:induction false} SextetAt(s: seq<byte>, m: nat, r: nat)
    requires r < 4
    ensures Sextet(s, 4 * m + r) == Six(ByteAt(s, 3 * m), ByteAt(s, 3 * m + 1), ByteAt(s, 3 * m + 2), r)
    decreases m
  {
    if m > 0 {
      if |s| >= 3 {
        SextetAt(s[3..], m - 1, r);
      }
    }
  }

  /** The number of symbols that carry bits of n bytes. */
  function Symbols(n: nat): nat {
    (4 * n + 2) / 3
  }

  /** The length of the encoding, with its padding. */
  function Padded(n: nat): nat {
    (n + 2) / 3 * 4
  }

  lemma {:induction false} FourSextets(a: nat, b: nat, c: nat)
    requires a < 256 && b < 256 && c < 256
    ensures a * 65536 + b * 256 + c < 0x100_0000
    ensures (a * 65536 + b * 256 + c) / 262144 == a / 4 && (a * 65536 + b * 256 + c) % 64 == c % 64
    ensures (a * 65536 + b * 256 + c) / 4096 % 64 == a % 4 * 16 + b / 16
    ensures (a * 65536 + b * 256 + c) / 64 % 64 == b % 16 * 4 + c / 64
  {
    Slice(a * 65536 + b * 256 + c, a / 4, a % 4 * 16 + b / 16, b % 16 * 4 + c / 64, c % 64);
  }

  lemma {:induction false} Slice(n: nat, p: nat, q: nat, r: nat, t: nat)
    requires n == p * 262144 + q * 4096 + r * 64 + t && q < 64 && r < 64 && t < 64
    ensures n / 262144 == p && n / 4096 % 64 == q && n / 64 % 64 == r && n % 64 == t
  {
    assert n / 4096 == p * 64 + q;
    assert n / 64 == (p * 64 + q) * 64 + r;
  }

  lemma {:induction false} QuantumOfBytes(b64: string, s: seq<byte>)
    requires |b64| == 64
    ensures Quantum(b64, First24(s)) ==
            [b64[Sextet(s, 0)], b64[Sextet(s, 1)], b64[Sextet(s, 2)], b64[Sextet(s, 3)]]
  {
    FourSextets(ByteAt(s, 0), ByteAt(s, 1), ByteAt(s, 2));
  }

  lemma {:induction false} OneGroupLess(n: nat)
    requires n >= 3
    ensures Symbols(n) == Symbols(n - 3) + 4 && Padded(n) == Padded(n - 3) + 4
  {
  }

  lemma {:induction false} EncodeLength(b64: string, s: seq<byte>)
    requires |b64| == 64
    ensures |Encode(b64, s)| == Padded(|s|)
    decreases |s|
  {
    if |s| >= 3 {
      OneGroupLess(|s|);
      EncodeLength(b64, s[3..]);
    }
  }

  /** The symbols of the first quantum. */
  lemma {:induction false} FirstQuantum(b64: string, s: seq<byte>, j: nat)
    requires |b64| == 64 && 0 < |s| && j < 4
    ensures |Encode(b64, s)| >= 4
    ensures Encode(b64, s)[j] == if j < Symbols(|s|) then b64[Sextet(s, j)] else '='
  {
    QuantumOfBytes(b64, s);
    var four := [b64[Sextet(s, 0)], b64[Sextet(s, 1)], b64[Sextet(s, 2)], b64[Sextet(s, 3)]];
    assert four[j] == b64[Sextet(s, j)];
  }

  /** Each symbol of the encoding, by its place. */
  lemma {:induction false} EncodeAt(b64: string, s: seq<byte>, j: nat)
    requires |b64| == 64 && j < Padded(|s|)
    ensures |Encode(b64, s)| == Padded(|s|)
    ensures Encode(b64, s)[j] == if j < Symbols(|s|) then b64[Sextet(s, j)] else '='
    decreases |s|
  {
    EncodeLength(b64, s);
    if j < 4 {
      FirstQuantum(b64, s, j);
    } else {
      OneGroupLess(|s|);
      EncodeAt(b64, s[3..], j - 4);
    }
  }

  // ---------------------------------------------------------------- the encoder

  /** UINT_MAX / 4. */
  const TOO_LONG: nat := 1073741823

  function Power(n: nat): (p: nat)
    ensures p > 0
  {
    if n == 0 then 1 else 2 * Power(n - 1)
  }

  /** The value the encoder looks up: the word shifted left by six and right by n, in 32 bits. */
  function Shifted(bits: nat, n: nat): (v: nat)
    ensures v < 64
  {
    bits * 64 % U32 / Power(n) % 64
  }

  lemma {:induction false} Powers()
    ensures Power(2) == 4 && Power(4) == 16 && Power(6) == 64 && Power(8) == 256
    ensures Power(10) == 1024 && Power(12) == 4096 && Power(14) == 16384
  {
    assert Power(4) == 16;
    assert Power(8) == 256;
    assert Power(12) == 4096;
  }

  /** The two bytes read last. */
  function LastTwo(s: seq<byte>, k: nat): nat
    requires k <= |s|
  {
    (if k > 1 then s[k - 2] as nat else 0) * 256 + if k > 0 then s[k - 1] as nat else 0
  }

  lemma {:induction false} WordOf(bits: nat)
    ensures bits * 64 % U32 == bits / U16 % 1024 * 4194304 + bits % U16 * 64
  {
  }

  /** The wrapped word agrees with the last two bytes in the bits that are looked up. */
  lemma {:induction false} Lookup(bits: nat, x: nat, y: nat)
    requires bits % U16 == x * 256 + y && x < 256 && y < 256
    ensures Shifted(bits, 2) == y % 4 * 16 && Shifted(bits, 8) == y / 4 && Shifted(bits, 14) == x % 64
    ensures Shifted(bits, 4) == y % 16 * 4 && Shifted(bits, 10) == x % 4 * 16 + y / 16
    ensures Shifted(bits, 6) == y % 64 && Shifted(bits, 12) == x % 16 * 4 + y / 64
  {
    WordOf(bits);
    var h := bits / U16 % 1024;
    Powers();
    Slices(h, x, y);
  }

  lemma {:induction false} Slices(h: nat, x: nat, y: nat)
    requires x < 256 && y < 256
    ensures var w := h * 4194304 + (x * 256 + y) * 64;
      && w / 4 % 64 == y % 4 * 16 && w / 256 % 64 == y / 4 && w / 16384 % 64 == x % 64
      && w / 16 % 64 == y % 16 * 4 && w / 1024 % 64 == x % 4 * 16 + y / 16
      && w / 64 % 64 == y % 64 && w / 4096 % 64 == x % 16 * 4 + y / 64
  {
    var w := h * 4194304 + (x * 256 + y) * 64;
    Nested(w);
    Slice(w / 4, h * 4 + x / 64, x % 64, y / 4, y % 4 * 16);
    Slice(w / 16, h, x / 4, x % 4 * 16 + y / 16, y % 16 * 4);
    Slice(w / 64, h / 4, h % 4 * 16 + x / 16, x % 16 * 4 + y / 64, y % 64);
  }

  lemma {:induction false} Nested(w: nat)
    ensures w / 256 == w / 4 / 64 && w / 16384 == w / 4 / 4096
    ensures w / 1024 == w / 16 / 64 && w / 4096 == w / 64 / 64
  {
  }

  /** What the encoder looks up with 8k - 6d bits pending is the next group of six bits. */
  lemma {:induction false} EmitsSextet(s: seq<byte>, k: nat, d: nat, bits: nat)
    requires 0 < k <= |s| && 2 <= 8 * k - 6 * d <= 14
    requires 8 * k - 6 * d >= 6 || k == |s|
    requires bits % U16 == LastTwo(s, k)
    ensures Shifted(bits, 8 * k - 6 * d) == Sextet(s, d)
  {
    var n := 8 * k - 6 * d;
    Lookup(bits, if k > 1 then s[k - 2] as nat else 0, s[k - 1] as nat);
    var m := d / 4;
    SextetAt(s, m, d % 4);
    if n == 8 {
      assert d == 4 * m && k == 3 * m + 1;
    } else if n == 10 {
      assert d == 4 * m + 1 && k == 3 * m + 2;
    } else if n == 2 {
      assert d == 4 * m + 1 && k == 3 * m + 1;
    } else if n == 12 {
      assert d == 4 * m + 2 && k == 3 * m + 3;
    } else if n == 4 {
      assert d == 4 * m + 2 && k == 3 * m + 2;
    } else if n == 14 {
      assert d == 4 * m + 3 && k == 3 * m + 4;
    } else {
      assert d == 4 * m + 3 && k == 3 * m + 3;
    }
  }

  lemma {:induction false} WordTimes256(bits: nat, low: nat)
    requires bits % U16 == low
    ensures bits * 256 % U32 == bits / U16 % 256 * 16777216 + low * 256
  {
  }

  /** The word after one more byte keeps that byte and the one before it, though it wraps. */
  method AddByte(bits: nat, s: seq<byte>, k: nat) returns (r: nat)
    requires k < |s| && bits % U16 == LastTwo(s, k)
    ensures r < U32 && r % U16 == LastTwo(s, k + 1)
  {
    ghost var x := if k > 1 then s[k - 2] as nat else 0;
    ghost var y := if k > 0 then s[k - 1] as nat else 0;
    WordTimes256(bits, x * 256 + y);
    assert (bits / U16 % 256 * 256 + x) * U16 + y * 256 == bits / U16 % 256 * 16777216 + (x * 256 + y) * 256;
    r := bits * 256 % U32 + s[k] as nat;
  }

  /** The first d symbols of the encoding. */
  function Head(b64: string, s: seq<byte>, d: nat): (r: string)
    requires |b64| == 64
    ensures |r| == d
  {
    if d == 0 then "" else Head(b64, s, d - 1) + [b64[Sextet(s, d - 1)]]
  }

  function Pads(n: nat): string {
    if n == 0 then "" else Pads(n - 1) + "="
  }

  lemma {:induction false} HeadAt(b64: string, s: seq<byte>, d: nat, j: nat)
    requires |b64| == 64 && j < d
    ensures Head(b64, s, d)[j] == b64[Sextet(s, j)]
  {
    if j < d - 1 {
      HeadAt(b64, s, d - 1, j);
    }
  }

  /** The encoding is its symbols and its padding. */
  lemma {:induction false} EncodeIsHeadAndPads(b64: string, s: seq<byte>)
    requires |b64| == 64
    ensures Encode(b64, s) == Head(b64, s, Symbols(|s|)) + Pads(Padded(|s|) - Symbols(|s|))
  {
    var n := Padded(|s|) - Symbols(|s|);
    assert n <= 2;
    assert Pads(1) == "=" && Pads(2) == "==";
    EncodeLength(b64, s);
    var text := Head(b64, s, Symbols(|s|)) + Pads(n);
    forall j | 0 <= j < Padded(|s|)
      ensures Encode(b64, s)[j] == text[j]
    {
      EncodeAt(b64, s, j);
      if j < Symbols(|s|) {
        HeadAt(b64, s, Symbols(|s|), j);
      }
    }
  }

  /** Stores one character and moves on. */
  method Store(out: array<char>, d: nat, c: char) returns (next: nat)
    requires d < out.Length
    modifies out
    ensures next == d + 1
    ensures out[..next] == old(out[..d]) + [c] && out[next..] == old(out[next..])
  {
    out[d] := c;
    next := d + 1;
  }

  lemma {:induction false} TailOfTail<T>(a: seq<T>, b: seq<T>, d: nat)
    requires d < |a| && d < |b| && a[d..] == b[d..]
    ensures a[d + 1..] == b[d + 1..]
  {
    assert a[d..][1..] == a[d + 1..] && b[d..][1..] == b[d + 1..];
  }

  lemma {:induction false} Room(n: nat, k: nat, d: nat)
    requires k <= n
    ensures 8 * k - 6 * d >= 2 ==> d < Padded(n)
    ensures -4 <= 8 * n - 6 * d <= 0 ==> d == Symbols(n)
  {
  }

  /** Looks up and stores the symbol of the `shift` bits pending; `was` is what the buffer held at first. */
  method StoreSymbol(b64: string, out: array<char>, d: nat, bits: nat, shift: nat, ghost s: seq<byte>, ghost k: nat,
                     ghost was: string)
      returns (next: nat)
    requires |b64| == 64 && d < out.Length == |was| && Padded(|s|) < out.Length
    requires 0 < k <= |s| && shift == 8 * k - 6 * d && 2 <= shift <= 14 && (shift >= 6 || k == |s|)
    requires bits % U16 == LastTwo(s, k)
    requires out[..d] == Head(b64, s, d) && out[d..] == was[d..]
    modifies out
    ensures next == d + 1 < out.Length
    ensures out[..next] == Head(b64, s, next) && out[next..] == was[next..]
  {
    Room(|s|, k, d);
    TailOfTail(out[..], was, d);
    EmitsSextet(s, k, d, bits);
    next := Store(out, d, b64[Shifted(bits, shift)]);
  }

  /** The two nested loops: all symbols of the input. */
  method StoreSymbols(b64: string, out: array<char>, input: seq<byte>) returns (d: nat)
    requires |b64| == 64 && out.Length > Padded(|input|)
    modifies out
    ensures d == Symbols(|input|)
    ensures out[..d] == Head(b64, input, d) && out[d..] == old(out[..])[d..]
  {
    ghost var was := out[..];
    var bits: nat, shift: int, k: nat := 0, 0, 0;
    d := 0;
    while k < |input|
      invariant k <= |input| && bits % U16 == LastTwo(input, k)
      invariant shift == 8 * k - 6 * d && if k < |input| then 0 <= shift <= 6 else -4 <= shift <= 0
      invariant d < out.Length && out[..d] == Head(b64, input, d) && out[d..] == was[d..]
    {
      bits := AddByte(bits, input, k);
      k := k + 1;
      shift := shift + 8;
      d := StoreSymbol(b64, out, d, bits, shift, input, k, was);
      shift := shift - 6;
      while shift > 6 || (k == |input| && shift > 0)
        invariant shift == 8 * k - 6 * d && (if k < |input| then 0 else -4) <= shift <= 8
        invariant d < out.Length && out[..d] == Head(b64, input, d) && out[d..] == was[d..]
        decreases shift
      {
        d := StoreSymbol(b64, out, d, bits, shift, input, k, was);
        shift := shift - 6;
      }
    }
    Room(|input|, k, d);
  }

  /**
   Fills `out` with the encoding of the input and a terminator. Refused when the
   input is too long or `outSize` too small.
   */
  method EncodeInto(b64: string, out: array<char>, outSize: nat, input: seq<byte>) returns (ok: bool, size: nat)
    requires |b64| == 64 && outSize <= out.Length
    modifies out
    ensures ok == (|input| < 0x3fff_ffff && outSize >= Padded(|input|) + 1)
    ensures ok ==> size == |Encode(b64, input)| < outSize
    ensures ok ==> out[..size + 1] == Encode(b64, input) + [0 as char]
    ensures ok ==> out[size + 1..] == old(out[..])[size + 1..]
    ensures !ok ==> size == outSize && out[..] == old(out[..])
  {
    if |input| >= TOO_LONG || outSize < Padded(|input|) + 1 {
      return false, outSize;
    }
    ghost var was := out[..];
    ghost var head := Head(b64, input, Symbols(|input|));
    var d := StoreSymbols(b64, out, input);
    d := StorePads(out, d, |input|, head, was);
    EncodeIsHeadAndPads(b64, input);
    EncodeLength(b64, input);
    TailOfTail(out[..], was, d);
    size := d;
    d := Store(out, d, 0 as char);
    ok := true;
  }

  /** Fills the last group of four with the padding. */
  method StorePads(out: array<char>, from: nat, ghost n: nat, ghost head: string, ghost was: seq<char>) returns (d: nat)
    requires from == Symbols(n) && Padded(n) < out.Length == |was|
    requires out[..from] == head && out[from..] == was[from..]
    modifies out
    ensures d == Padded(n) && out[..d] == head + Pads(Padded(n) - Symbols(n)) && out[d..] == was[d..]
  {
    d := from;
    ghost var pads := 0;
    while d % 4 != 0
      invariant d == Symbols(n) + pads <= Padded(n)
      invariant out[..d] == head + Pads(pads) && out[d..] == was[d..]
      decreases Padded(n) - d
    {
      PadsLeft(n, d);
      TailOfTail(out[..], was, d);
      d := Store(out, d, '=');
      OnePadMore(head, pads);
      pads := pads + 1;
    }
    PadsLeft(n, d);
  }

  lemma {:induction false} OnePadMore(head: string, pads: nat)
    ensures head + Pads(pads) + "=" == head + Pads(pads + 1)
  {
  }

  lemma {:induction false} PadsLeft(n: nat, d: nat)
    requires Symbols(n) <= d <= Padded(n)
    ensures d % 4 == 0 <==> d == Padded(n)
  {
  }

  // ---------------------------------------------------------------- decoding

  /** The character at i, as a C string gives it. */
  function CharAt(text: string, i: nat): char {
    if i < |text| then text[i] else 0 as char
  }

  /** The first place at or after i where the decoder stops. */
  function StopFrom(text: string, i: nat): (r: nat)
    requires i <= |text|
    ensures i <= r <= |text|
    ensures r > i <==> !Stops(CharAt(text, i))
    ensures Stops(CharAt(text, r))
    ensures forall j :: i <= j < r ==> !Stops(text[j])
    decreases |text| - i
  {
    if Stops(CharAt(text, i)) then i else StopFrom(text, i + 1)
  }

  function Values(map2: seq<nat>, text: string): (r: seq<nat>)
    ensures |r| == |text| && forall j :: 0 <= j < |text| ==> r[j] == Value(map2, text[j])
  {
    seq(|text|, j requires 0 <= j < |text| => Value(map2, text[j]))
  }

  predicate Known(vs: seq<nat>) {
    forall j :: 0 <= j < |vs| ==> vs[j] != NONE
  }

  /** The byte that two neighbouring symbols complete, the second at a place i mod 4 = r. */
  function Joined(x: nat, y: nat, r: nat): byte {
    if r == 1 then Low(x * 4 + y / 16) else if r == 2 then Low(x * 16 + y / 4) else Low(x * 64 + y)
  }

  /** The bytes of a run of values: every symbol but the first of four completes one. */
  function Data(vs: seq<nat>): (r: seq<byte>)
    ensures |r| == |vs| / 4 * 3 + if |vs| % 4 == 0 then 0 else |vs| % 4 - 1
  {
    var i := |vs| - 1;
    if |vs| == 0 then []
    else if i % 4 == 0 then Data(vs[..i])
    else Data(vs[..i]) + [Joined(vs[i - 1], vs[i], i % 4)]
  }

  /** What a text decodes to; nothing when it has an unknown symbol before the padding. */
  function Decode(map2: seq<nat>, text: string): Option<seq<byte>> {
    var vs := Values(map2, text[..StopFrom(text, 0)]);
    if Known(vs) then Some(Data(vs)) else None
  }

  /** A symbol of the alphabet. */
  predicate IsSymbol(c: char) {
    'A' <= c <= 'Z' || 'a' <= c <= 'z' || '0' <= c <= '9' || c == '+' || c == '/'
  }

  predicate Sorted(k: nat)
    requires k < 80
  {
    |MAP2| == 80 && (MAP2[k] == NONE <==> !IsSymbol((k + 43) as char))
  }

  lemma {:induction false} SortedLow()
    ensures forall k: nat :: 0 <= k < 27 ==> Sorted(k)
  {
  }

  lemma {:induction false} SortedMiddle()
    ensures forall k: nat :: 27 <= k < 54 ==> Sorted(k)
  {
  }

  lemma {:induction false} SortedHigh()
    ensures forall k: nat :: 54 <= k < 80 ==> Sorted(k)
  {
  }

  /** The table of the source has a value for the symbols of the alphabet, and for nothing else. */
  lemma {:induction false} KnownExactly(c: char)
    ensures Value(MAP2, c) != NONE <==> IsSymbol(c)
  {
    SortedLow();
    SortedMiddle();
    SortedHigh();
    assert |MAP2| == 80;
    if 43 <= c as int < 123 {
      assert Sorted(c as int - 43);
    }
  }

  /** The byte whose bits end `x` and begin `y`, by its place among three. */
  function Shared(x: nat, y: nat, place: nat): nat {
    (x * 64 + y) / (if place == 0 then 16 else if place == 1 then 4 else 1) % 256
  }

  lemma {:induction false} JoinedIsShared(x: nat, y: nat, place: nat)
    requires x < 64 && y < 64 && place < 3
    ensures Joined(x, y, place + 1) as nat == Shared(x, y, place)
  {
    if place == 0 {
      assert (x * 64 + y) / 16 == x * 4 + y / 16;
    } else if place == 1 {
      assert (x * 64 + y) / 4 == x * 16 + y / 4;
    }
  }

  /**
   Decoding, in terms of the text up to its end, NUL or padding: it is refused if and
   only if that has a character outside the alphabet; else every four symbols give
   three bytes, each of which joins the bits of two neighbours.
   */
  lemma {:induction false} DecodesByText(text: string, p: nat)
    requires p <= |text| && (forall j :: 0 <= j < p ==> text[j] != '=' && text[j] != 0 as char)
    requires p == |text| || text[p] == '=' || text[p] == 0 as char
    ensures Decode(MAP2, text).None? <==> exists j :: 0 <= j < p && !IsSymbol(text[j])
    ensures Decode(MAP2, text).Some? ==>
      var d := Decode(MAP2, text).value;
      && |d| == p - (p + 3) / 4
      && forall t, x: nat, y: nat | 0 <= t < |d| && x < 64 && y < 64 &&
           text[t + t / 3] == Symbol(x) && text[t + t / 3 + 1] == Symbol(y) :: d[t] as nat == Shared(x, y, t % 3)
  {
    var vs := Values(MAP2, text[..p]);
    StopIs(text, 0, p);
    forall j | 0 <= j < p
      ensures vs[j] == NONE <==> !IsSymbol(text[j])
    {
      KnownExactly(text[j]);
    }
    if Known(vs) {
      forall t, x: nat, y: nat | 0 <= t < |Data(vs)| && x < 64 && y < 64 && t + t / 3 + 1 < p &&
          text[t + t / 3] == Symbol(x) && text[t + t / 3 + 1] == Symbol(y)
        ensures Data(vs)[t] as nat == Shared(x, y, t % 3)
      {
        ByteOf(vs, text, p, t, x, y);
      }
      forall t | 0 <= t < |Data(vs)|
        ensures t + t / 3 + 1 < p
      {
        DataAt(vs, t);
      }
    }
  }

  lemma {:induction false} ByteOf(vs: seq<nat>, text: string, p: nat, t: nat, x: nat, y: nat)
    requires p <= |text| && vs == Values(MAP2, text[..p]) && t < |Data(vs)| && x < 64 && y < 64 && t + t / 3 + 1 < p
    requires text[t + t / 3] == Symbol(x) && text[t + t / 3 + 1] == Symbol(y)
    ensures Data(vs)[t] as nat == Shared(x, y, t % 3)
  {
    DataAt(vs, t);
    AlphabetIsStandard(x);
    AlphabetIsStandard(y);
    JoinedIsShared(x, y, t % 3);
  }

  lemma {:induction false} StopIs(text: string, i: nat, p: nat)
    requires i <= p <= |text| && (forall j :: i <= j < p ==> text[j] != '=' && text[j] != 0 as char)
    requires p == |text| || text[p] == '=' || text[p] == 0 as char
    ensures StopFrom(text, i) == p
    decreases p - i
  {
    if i < p {
      StopIs(text, i + 1, p);
    }
  }

  /** The symbol at place t + t / 3 + 1 completes byte t. */
  lemma {:induction false} DataAt(vs: seq<nat>, t: nat)
    requires t < |Data(vs)|
    ensures t + t / 3 + 1 < |vs|
    ensures Data(vs)[t] == Joined(vs[t + t / 3], vs[t + t / 3 + 1], t % 3 + 1)
  {
    var i := |vs| - 1;
    if t < |Data(vs[..i])| {
      DataAt(vs[..i], t);
    }
  }

  lemma {:induction false} AddMultiple(a: nat, b: nat)
    ensures Low(a * 256 + b) == Low(b)
  {
  }

  /** The byte stored after a symbol, from the two values added last. */
  lemma {:induction false} LowByte(v: nat, x: nat, y: nat, r: nat)
    requires v % 4096 == x * 64 + y && x < 64 && y < 64 && 1 <= r <= 3
    ensures Low(v / Power(6 - 2 * r)) == Joined(x, y, r)
  {
    Powers();
    var h := v / 4096;
    if r == 1 {
      assert v / 16 == h * 256 + (x * 4 + y / 16);
      AddMultiple(h, x * 4 + y / 16);
    } else if r == 2 {
      assert v / 4 == h * 4 * 256 + (x * 16 + y / 4);
      AddMultiple(h * 4, x * 16 + y / 4);
    } else {
      assert Power(0) == 1;
      AddMultiple(h * 16, x * 64 + y);
    }
  }

  /** Twelve bits of the accumulator after one more value, though it wraps. */
  lemma {:induction false} AddValue(v: nat, w: nat, x: nat, y: nat)
    requires v % 4096 == w * 64 + x && x < 64 && y < 64
    ensures (v * 64 + y) % U32 % 4096 == x * 64 + y
  {
    ModMod(v * 64 + y);
    Remainder(v * 64 + y, v / 4096 * 64 + w, x * 64 + y);
  }

  lemma {:induction false} ModMod(n: nat)
    ensures n % U32 % 4096 == n % 4096
  {
    Remainder(n % U32, n / 4096 - n / U32 * 1048576, n % 4096);
  }

  lemma {:induction false} Remainder(n: nat, q: int, r: nat)
    requires n == q * 4096 + r && r < 4096
    ensures n % 4096 == r
  {
  }

  /** The last value but n. */
  function Recent(vs: seq<nat>, n: nat): nat {
    if n < |vs| then vs[|vs| - 1 - n] else 0
  }

  function Capped(data: seq<byte>, n: nat): seq<byte> {
    if |data| <= n then data else data[..n]
  }

  lemma {:induction false} CappedSnoc(data: seq<byte>, b: byte, n: nat)
    ensures Capped(data + [b], n) == if |data| < n then Capped(data, n) + [b] else Capped(data, n)
  {
  }

  lemma {:induction false} OneByteMore(v: nat, i: nat, vs: seq<nat>)
    requires |vs| == i + 1 && i % 4 != 0
    requires v % 4096 == vs[i - 1] * 64 + vs[i] && vs[i - 1] < 64 && vs[i] < 64
    ensures Data(vs) == Data(vs[..i]) + [Low(v / Power(6 - 2 * (i % 4)))]
  {
    LowByte(v, vs[i - 1], vs[i], i % 4);
  }

  /** Stores the byte that the i-th symbol completes, if there is room. */
  method StoreByte(out: array<byte>, dst: nat, outSize: nat, v: nat, i: nat, ghost vs: seq<nat>) returns (next: nat)
    requires dst <= outSize <= out.Length && |vs| == i + 1 && i % 4 != 0
    requires v % 4096 == vs[i - 1] * 64 + vs[i] && vs[i - 1] < 64 && vs[i] < 64
    requires out[..dst] == Capped(Data(vs[..i]), outSize)
    modifies out
    ensures next <= outSize && out[..next] == Capped(Data(vs), outSize)
  {
    OneByteMore(v, i, vs);
    var b := Low(v / Power(6 - 2 * (i % 4)));
    CappedSnoc(Data(vs[..i]), b, outSize);
    next := dst;
    if dst < outSize {
      out[dst] := b;
      next := dst + 1;
    }
  }

  ghost predicate Small(vs: seq<nat>) {
    forall j :: 0 <= j < |vs| ==> vs[j] < 64
  }

  ghost predicate SmallOrNone(map2: seq<nat>) {
    forall k :: 0 <= k < |map2| ==> map2[k] == NONE || map2[k] < 64
  }

  /** The decoder has read i symbols, with these values. */
  ghost predicate Read(map2: seq<nat>, text: string, i: nat, vs: seq<nat>) {
    && i <= |text| && StopFrom(text, i) == StopFrom(text, 0)
    && vs == Values(map2, text[..i]) && Small(vs)
  }

  lemma {:induction false} ReadOne(map2: seq<nat>, text: string, i: nat, vs: seq<nat>)
    requires Read(map2, text, i, vs) && !Stops(CharAt(text, i)) && SmallOrNone(map2)
    ensures i < |text|
    ensures var y := Value(map2, text[i]);
      if y == NONE then Decode(map2, text) == None else y < 64 && Read(map2, text, i + 1, vs + [y])
  {
    var y := Value(map2, text[i]);
    if y == NONE {
      assert Values(map2, text[..StopFrom(text, 0)])[i] == NONE;
    } else {
      assert Values(map2, text[..i + 1]) == vs + [y];
    }
  }

  lemma {:induction false} ReadAll(map2: seq<nat>, text: string, i: nat, vs: seq<nat>)
    requires Read(map2, text, i, vs) && Stops(CharAt(text, i))
    ensures Decode(map2, text) == Some(Data(vs))
  {
  }

  /**
   Adds the value of the i-th symbol to the accumulator and stores the byte it
   completes, if there is one and there is room.
   */
  method Accept(out: array<byte>, dst: nat, outSize: nat, v: nat, i: nat, y: nat, ghost vs: seq<nat>)
      returns (sum: nat, next: nat)
    requires dst <= outSize <= out.Length && |vs| == i && Small(vs + [y])
    requires v % 4096 == Recent(vs, 1) * 64 + Recent(vs, 0)
    requires out[..dst] == Capped(Data(vs), outSize)
    modifies out
    ensures sum % 4096 == Recent(vs + [y], 1) * 64 + Recent(vs + [y], 0)
    ensures next <= outSize && out[..next] == Capped(Data(vs + [y]), outSize)
  {
    assert y == (vs + [y])[i] && (vs + [y])[..i] == vs;
    assert forall j :: 0 <= j < i ==> vs[j] == (vs + [y])[j];
    AddValue(v, Recent(vs, 1), Recent(vs, 0), y);
    sum := (v * 64 + y) % U32;
    next := dst;
    if i % 4 != 0 {
      next := StoreByte(out, dst, outSize, sum, i, vs + [y]);
    }
  }

  /**
   Decodes a C string into `out`, as far as there is room. Returns the number of
   bytes stored, or -1 at an unknown symbol.
   */
  method DecodeInto(map2: seq<nat>, out: array<byte>, text: string, outSize: nat) returns (size: int)
    requires outSize <= out.Length && SmallOrNone(map2)
    modifies out
    ensures Decode(map2, text).None? ==> size == -1
    ensures Decode(map2, text).Some? ==>
      0 <= size <= outSize && out[..size] == Capped(Decode(map2, text).value, outSize)
  {
    var v: nat, dst: nat, i: nat := 0, 0, 0;
    ghost var vs: seq<nat> := [];
    while !Stops(CharAt(text, i))
      invariant Read(map2, text, i, vs)
      invariant v % 4096 == Recent(vs, 1) * 64 + Recent(vs, 0)
      invariant dst <= outSize && out[..dst] == Capped(Data(vs), outSize)
      decreases |text| - i
    {
      ReadOne(map2, text, i, vs);
      var y := Value(map2, text[i]);
      if y == NONE {
        return -1;
      }
      v, dst := Accept(out, dst, outSize, v, i, y, vs);
      vs := vs + [y];
      i := i + 1;
    }
    ReadAll(map2, text, i, vs);
    size := dst;
  }

  // ---------------------------------------------------------------- the round trip

  /** Neighbouring groups of six bits join to the byte they share. */
  lemma {:induction false} JoinSix(a: byte, b: byte, c: byte)
    ensures Joined(Six(a as nat, b as nat, c as nat, 0), Six(a as nat, b as nat, c as nat, 1), 1) == a
    ensures Joined(Six(a as nat, b as nat, c as nat, 1), Six(a as nat, b as nat, c as nat, 2), 2) == b
    ensures Joined(Six(a as nat, b as nat, c as nat, 2), Six(a as nat, b as nat, c as nat, 3), 3) == c
  {
    JoinFirst(a as nat, b as nat / 16);
    JoinSecond(a as nat % 4, b as nat, c as nat / 64);
    JoinThird(b as nat % 16, c as nat);
  }

  lemma {:induction false} JoinFirst(a: nat, k: nat)
    requires a < 256 && k < 16
    ensures a / 4 * 4 + (a % 4 * 16 + k) / 16 == a
  {
  }

  lemma {:induction false} JoinSecond(h: nat, b: nat, k: nat)
    requires b < 256 && k < 4
    ensures Low((h * 16 + b / 16) * 16 + (b % 16 * 4 + k) / 4) == b as byte
  {
    assert (b % 16 * 4 + k) / 4 == b % 16;
    AddMultiple(h, b);
  }

  lemma {:induction false} JoinThird(h: nat, c: nat)
    requires c < 256
    ensures Low((h * 4 + c / 64) * 64 + c % 64) == c as byte
  {
    AddMultiple(h, c);
  }

  lemma {:induction false} JoinSextets(s: seq<byte>, t: nat)
    requires t < |s|
    ensures Joined(Sextet(s, t + t / 3), Sextet(s, t + t / 3 + 1), t % 3 + 1) == s[t]
  {
    var m, r := t / 3, t % 3;
    SextetAt(s, m, r);
    SextetAt(s, m, r + 1);
    JoinSix(ByteAt(s, 3 * m) as byte, ByteAt(s, 3 * m + 1) as byte, ByteAt(s, 3 * m + 2) as byte);
    assert t + m == 4 * m + r;
  }

  lemma {:induction false} NoSymbolStops(b64: string, map2: seq<nat>, v: nat)
    requires Inverse(b64, map2) && v < 64
    ensures !Stops(b64[v])
  {
    assert Decodes(b64, map2, v);
  }

  /** The decoder reads exactly the symbols of an encoding. */
  lemma {:induction false} StopsAtPadding(b64: string, map2: seq<nat>, s: seq<byte>)
    requires Inverse(b64, map2)
    ensures var text := Encode(b64, s);
      StopFrom(text, 0) == Symbols(|s|) && text[..Symbols(|s|)] == Head(b64, s, Symbols(|s|))
  {
    var text := Encode(b64, s);
    var n := Symbols(|s|);
    EncodeLength(b64, s);
    EncodeIsHeadAndPads(b64, s);
    forall j | 0 <= j < n
      ensures !Stops(text[j])
    {
      HeadAt(b64, s, n, j);
      NoSymbolStops(b64, map2, Sextet(s, j));
    }
    if n < |text| {
      EncodeAt(b64, s, n);
    }
  }

  /** Decoding undoes encoding, for every input. */
  lemma {:induction false} DecodeUndoesEncode(b64: string, map2: seq<nat>, s: seq<byte>)
    requires Inverse(b64, map2)
    ensures Decode(map2, Encode(b64, s)) == Some(s)
  {
    var n := Symbols(|s|);
    var head := Head(b64, s, n);
    var vs := Values(map2, head);
    StopsAtPadding(b64, map2, s);
    forall j | 0 <= j < n
      ensures vs[j] == Sextet(s, j)
    {
      HeadAt(b64, s, n, j);
      assert Decodes(b64, map2, Sextet(s, j));
    }
    assert |Data(vs)| == |s|;
    forall t | 0 <= t < |s|
      ensures Data(vs)[t] == s[t]
    {
      DataAt(vs, t);
      JoinSextets(s, t);
    }
    assert Data(vs) == s;
  }

  // ---------------------------------------------------------------- strings

  /**
   Sizes are converted to ints on the way, so an input of 4 GiB or more is cut.
   None stands for the exception of a buffer whose size has become negative.
   */
  method EncodeBase64(txt: seq<byte>) returns (text: Option<string>)
    ensures |txt| < 0x3fff_ffff ==> text == Some(Encode(B64, txt))
    ensures var inSize, size := ToInt(|txt|), ToInt(Padded(|txt|) + 1 + 10);
      text == if size < 0 then None
              else if inSize < 0 || inSize >= 0x3fff_ffff || size <= Padded(inSize) then Some("")
              else Some(Encode(B64, txt[..inSize]))
  {
    if |txt| == 0 {
      return Some("");
    }
    var size := ToInt(Padded(|txt|) + 1 + 10);
    if size < 0 {
      return None;
    }
    var ret := new char[size](_ => 0 as char);
    var inSize := ToInt(|txt|);
    if inSize < 0 {
      return Some("");
    }
    assert |txt| < 0x8000_0000 ==> txt[..inSize] == txt;
    var ok, used := EncodeInto(B64, ret, size, txt[..inSize]);
    if !ok {
      return Some("");
    }
    text := Some(ret[..used]);
    assert ret[..used] == ret[..used + 1][..used];
  }

  /**
   The size of the buffer is converted to an int too: a text of 2 GiB or more may
   find less room than it needs. The place where decoding stops fits the index.
   */
  method DecodeBase64(txt: string) returns (data: seq<byte>)
    requires StopFrom(txt, 0) <= 0x7fff_ffff
    ensures var room := ToInt(|txt| * 3 / 4 + 10);
      data == match Decode(MAP2, txt) case Some(d) => Capped(d, if room < 0 then 0 else room) case None => []
    ensures |txt| <= 0x7fff_ffff && Decode(MAP2, txt).Some? ==> data == Decode(MAP2, txt).value
  {
    if |txt| == 0 {
      return [];
    }
    var room := |txt| * 3 / 4 + 10;
    var ret := new byte[room](_ => 0);
    var outSize := ToInt(room);
    var size := DecodeInto(MAP2, ret, txt, if outSize < 0 then 0 else outSize);
    if size <= 0 {
      return [];
    }
    data := ret[..size];
  }

  /** Encoding, then decoding, gives every input within the size guard back. */
  method RoundTrip(txt: seq<byte>) returns (data: seq<byte>)
    requires |txt| < 0x3fff_ffff
    ensures data == txt
  {
    var text := EncodeBase64(txt);
    TablesAreInverse();
    EncodeLength(B64, txt);
    DecodeUndoesEncode(B64, MAP2, txt);
    data := DecodeBase64(text.value);
  }
}
