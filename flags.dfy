/** decode_flags (final.py:105-116): the 16-bit flags word of a DNS header,
    given as four hexadecimal characters, is written out as 16 binary digits,
    cut into fields of widths FLAG_LENGTH (final.py:85) and each field is
    decoded (DECODE_FLAG, final.py:103). The layout is that of section 4.1.1
    of RFC 1035. */
module Flags {
  import opened DnsBase
  import opened Registry

  /** FLAG_LENGTH: QR, OPCODE, AA, TC, RD, RA, Z, AD, CD, RCODE. */
  const FlagLength: seq<nat> := [1, 4, 1, 1, 1, 1, 1, 1, 1, 4]

  type Bit = b: int | 0 <= b < 2

  function Pow2(n: nat): (p: nat)
    ensures p >= 1
  {
    if n == 0 then 1 else 2 * Pow2(n - 1)
  }

  /** The `n` binary digits of `v mod 2^n`, most significant first:
      `'{:016b}'.format(v)` for `n = 16` and `v < 2^16`. */
  function Bits(v: nat, n: nat): (s: seq<Bit>)
    ensures |s| == n
  {
    if n == 0 then [] else Bits(v / 2, n - 1) + [v % 2]
  }

  /** `v` shifted right by `b` bits. */
  function Shr(v: nat, b: nat): nat
  {
    if b == 0 then v else Shr(v / 2, b - 1)
  }

  /** `int(s, 2)`; the empty string is not reached by decode_flags. */
  function BitsValue(s: seq<Bit>): (v: nat)
    ensures v < Pow2(|s|)
  {
    if s == [] then 0 else 2 * BitsValue(s[..|s| - 1]) + s[|s| - 1]
  }

  /** Python's `s[a:b]` on the digit string. */
  function BitSlice(s: seq<Bit>, a: nat, b: nat): seq<Bit>
  {
    if a < b && a < |s| then s[a..Min(b, |s|)] else []
  }

  /** `int(bits[a:b], 2)`: the slice of the digit string read as a number. */
  function SliceValue(bits: seq<Bit>): (nat, nat) -> nat
  {
    (a: nat, b: nat) => BitsValue(BitSlice(bits, a, b))
  }

  /** The loop of decode_flags: from `index` on, consecutive slices of the
      given widths, each read back as a number by `read`. */
  function FieldValues(read: (nat, nat) -> nat, ws: seq<nat>, index: nat): (vs: seq<nat>)
    ensures |vs| == |ws|
  {
    if ws == [] then [] else [read(index, index + ws[0])] + FieldValues(read, ws[1..], index + ws[0])
  }

  /** One value of the dictionary decode_flags returns: what `bool`, `int`,
      dns_opcode, dns_cd or dns_rcode made of a field. */
  datatype FlagValue =
    | Flag(flag: bool)
    | Number(number: nat)
    | Op(opcode: Opcode)
    | Cd(checking: Checking)
    | Rc(rcode: Rcode)

  function BoolValue(b: bool): nat { if b then 1 else 0 }

  /** The number a decoded value stands for. */
  function FlagNumber(x: FlagValue): nat
  {
    match x
    case Flag(b) => BoolValue(b)
    case Number(n) => n
    case Op(o) => OpcodeValue(o)
    case Cd(c) => CheckingValue(c)
    case Rc(c) => RcodeValue(c)
  }

  /** The flags word of section 4.1.1 of RFC 1035 that the ten values of a
      breakdown, in FLAGS order (final.py:88-99), stand for. */
  function FlagsValue(vs: seq<FlagValue>): nat
    requires |vs| == 10
  {
    FlagNumber(vs[0]) * 32768 + FlagNumber(vs[1]) * 2048 + FlagNumber(vs[2]) * 1024
    + FlagNumber(vs[3]) * 512 + FlagNumber(vs[4]) * 256 + FlagNumber(vs[5]) * 128
    + FlagNumber(vs[6]) * 64 + FlagNumber(vs[7]) * 32 + FlagNumber(vs[8]) * 16
    + FlagNumber(vs[9])
  }

  function AsBool(n: nat): Result<FlagValue> { Ok(Flag(n != 0)) }

  function AsInt(n: nat): Result<FlagValue> { Ok(Number(n)) }

  function AsOpcode(n: nat): Result<FlagValue>
  {
    match DnsOpcode(n)
    case Err(e) => Err(e)
    case Ok(o) => Ok(Op(o))
  }

  function AsChecking(n: nat): Result<FlagValue>
  {
    match DnsCd(n)
    case Err(e) => Err(e)
    case Ok(c) => Ok(Cd(c))
  }

  function AsRcode(n: nat): Result<FlagValue>
  {
    match DnsRcode(n)
    case Err(e) => Err(e)
    case Ok(c) => Ok(Rc(c))
  }

  /** DECODE_FLAG (final.py:103): the decoder of each field, in FLAGS order. */
  const FlagDecoders: seq<nat -> Result<FlagValue>> :=
    [AsBool, AsOpcode, AsBool, AsBool, AsBool, AsBool, AsInt, AsBool, AsChecking, AsRcode]

  /** What each decoder accepts and what it makes: only dns_opcode, dns_cd
      and dns_rcode raise, always ValueError, and every decoded value stands
      for the number it was made from (a one-bit field is 0 or 1). */
  lemma FlagDecoder(k: nat, n: nat)
    requires k < 10
    ensures var r := FlagDecoders[k](n);
            r.Ok? <==> (k == 1 ==> n in {0, 1, 2, 4, 5, 6}) && (k == 8 ==> n in {0, 1})
                       && (k == 9 ==> n < 12)
    ensures var r := FlagDecoders[k](n);
            r.Err? ==> r.error == ValueError
    ensures var r := FlagDecoders[k](n);
            r.Ok? && (FlagLength[k] == 1 ==> n < 2) ==> FlagNumber(r.value) == n
    ensures var r := FlagDecoders[k](n);
            r.Ok? ==> (k == 0 ==> r.value == Flag(n != 0)) && (k == 1 ==> r.value.Op?)
                      && (k == 9 ==> r.value.Rc?)
  {
  }

  /** The guard of decode_flags: exactly four characters of "0123456789abcdef"
      (upper-case digits are refused). */
  predicate IsLowerHex(flag: string)
  {
    |flag| == 4 && forall i :: 0 <= i < 4 ==> IsHexDigit(flag[i])
  }

  /** decode_flags: four lower-case hexadecimal digits, written out as 16
      binary digits and cut by FLAG_LENGTH, each field through its decoder.
      DecodeFlagsChecks says exactly when it fails. */
  function DecodeFlags(flag: string): (r: Result<seq<FlagValue>>)
    ensures r.Ok? ==> IsLowerHex(flag) && |r.value| == 10
  {
    if !IsLowerHex(flag) then Err(ValueError)
    else DecodeWord(HexValue(flag))
  }

  /** decode_flags once the text is known to be hexadecimal: the word `v`
      written as 16 binary digits and cut by FLAG_LENGTH. */
  function DecodeWord(v: nat): (r: Result<seq<FlagValue>>)
    ensures r.Ok? ==> |r.value| == 10
  {
    DecodeFields(Bits(v, 16), FlagLength, FlagDecoders, 0)
  }

  /** The loop of decode_flags from digit `index` on: for each width and
      decoder in turn, the next digits read as a number and passed through
      the decoder; the first decoder that raises ends it. */
  function DecodeFields(bits: seq<Bit>, ws: seq<nat>, ds: seq<nat -> Result<FlagValue>>, index: nat)
    : (r: Result<seq<FlagValue>>)
    ensures r.Ok? ==> |r.value| == Min(|ws|, |ds|)
    decreases |ws|
  {
    if ws == [] || ds == [] then Ok([])
    else
      match ds[0](SliceValue(bits)(index, index + ws[0]))
      case Err(e) => Err(e)
      case Ok(x) =>
        match DecodeFields(bits, ws[1..], ds[1..], index + ws[0])
        case Err(e) => Err(e)
        case Ok(xs) => Ok([x] + xs)
  }

  /** The loop decodes the numbers FieldValues cuts: it succeeds exactly when
      every decoder accepts its number, and then holds what they make. */
  lemma {:induction false} DecodeFieldsOk(bits: seq<Bit>, ws: seq<nat>, ds: seq<nat -> Result<FlagValue>>,
                                          index: nat)
    requires |ws| == |ds|
    ensures var r, f := DecodeFields(bits, ws, ds, index), FieldValues(SliceValue(bits), ws, index);
            r.Ok? <==> forall j :: 0 <= j < |ws| ==> ds[j](f[j]).Ok?
    ensures var r, f := DecodeFields(bits, ws, ds, index), FieldValues(SliceValue(bits), ws, index);
            r.Ok? ==> forall j :: 0 <= j < |ws| ==> Ok(r.value[j]) == ds[j](f[j])
    decreases |ws|
  {
    if ws != [] {
      DecodeFieldsOk(bits, ws[1..], ds[1..], index + ws[0]);
      DecodeFieldsTurn(bits, ws, ds, index);
    }
  }

  /** When the loop fails, it is with the error of the first decoder that
      raises. */
  lemma {:induction false} DecodeFieldsErr(bits: seq<Bit>, ws: seq<nat>, ds: seq<nat -> Result<FlagValue>>,
                                           index: nat)
    requires |ws| == |ds|
    ensures var r, f := DecodeFields(bits, ws, ds, index), FieldValues(SliceValue(bits), ws, index);
            r.Err? ==> exists j :: 0 <= j < |ws| && ds[j](f[j]) == Err(r.error)
                                  && forall i :: 0 <= i < j ==> ds[i](f[i]).Ok?
    decreases |ws|
  {
    if ws != [] {
      DecodeFieldsErr(bits, ws[1..], ds[1..], index + ws[0]);
      DecodeFieldsTurn(bits, ws, ds, index);
      var f := FieldValues(SliceValue(bits), ws, index);
      var g := FieldValues(SliceValue(bits), ws[1..], index + ws[0]);
      var r := DecodeFields(bits, ws, ds, index);
      var rest := DecodeFields(bits, ws[1..], ds[1..], index + ws[0]);
      if ds[0](f[0]).Ok? && rest.Err? {
        var j :| 0 <= j < |ws| - 1 && ds[1..][j](g[j]) == Err(rest.error)
                 && forall i :: 0 <= i < j ==> ds[1..][i](g[i]).Ok?;
        assert ds[j + 1](f[j + 1]) == Err(r.error);
      }
    }
  }

  /** One turn of the loop, stated on the numbers FieldValues cuts. */
  lemma DecodeFieldsTurn(bits: seq<Bit>, ws: seq<nat>, ds: seq<nat -> Result<FlagValue>>, index: nat)
    requires ws != [] && ds != []
    ensures var f, g := FieldValues(SliceValue(bits), ws, index),
                        FieldValues(SliceValue(bits), ws[1..], index + ws[0]);
            forall j :: 1 <= j < |ws| ==> f[j] == g[j - 1]
    ensures var r, f := DecodeFields(bits, ws, ds, index), FieldValues(SliceValue(bits), ws, index);
            var head, rest := ds[0](f[0]), DecodeFields(bits, ws[1..], ds[1..], index + ws[0]);
            r == if head.Err? then Err(head.error)
                 else if rest.Err? then Err(rest.error)
                 else Ok([head.value] + rest.value)
  {
    var f := FieldValues(SliceValue(bits), ws, index);
    assert f == [SliceValue(bits)(index, index + ws[0])] + FieldValues(SliceValue(bits), ws[1..], index + ws[0]);
  }

  /** decode_flags fails exactly when the text is not four lower-case
      hexadecimal digits, when OPCODE (bits 14..11) is 3 or 7..15, or when
      RCODE (bits 3..0) is 12 or more, always with ValueError; otherwise the
      response bit, the opcode and the rcode are those of the word. */
  lemma DecodeFlagsChecks(flag: string)
    ensures var r := DecodeFlags(flag);
            r.Ok? <==> IsLowerHex(flag) && HexValue(flag) / 2048 % 16 in {0, 1, 2, 4, 5, 6}
                       && HexValue(flag) % 16 < 12
    ensures var r := DecodeFlags(flag);
            r.Err? ==> r.error == ValueError
    ensures var r := DecodeFlags(flag);
            r.Ok? ==> r.value[0] == Flag(HexValue(flag) >= 32768)
                      && r.value[1].Op? && OpcodeValue(r.value[1].opcode) == HexValue(flag) / 2048 % 16
                      && r.value[9].Rc? && RcodeValue(r.value[9].rcode) == HexValue(flag) % 16
  {
    if IsLowerHex(flag) {
      assert HexValue(flag) < 65536 by { assert Pow16(4) == 65536; }
      WordChecks(HexValue(flag));
    }
  }

  /** The checks of decode_flags on a 16-bit word. */
  lemma WordChecks(v: nat)
    requires v < 65536
    ensures var r := DecodeWord(v);
            r.Ok? <==> v / 2048 % 16 in {0, 1, 2, 4, 5, 6} && v % 16 < 12
    ensures var r := DecodeWord(v);
            r.Err? ==> r.error == ValueError
    ensures var r := DecodeWord(v);
            r.Ok? ==> r.value[0] == Flag(v >= 32768)
                      && r.value[1].Op? && OpcodeValue(r.value[1].opcode) == v / 2048 % 16
                      && r.value[9].Rc? && RcodeValue(r.value[9].rcode) == v % 16
  {
    var f := FieldValues(SliceValue(Bits(v, 16)), FlagLength, 0);
    FieldsOfWord(v);
    DecodeFieldsOk(Bits(v, 16), FlagLength, FlagDecoders, 0);
    DecodeFieldsErr(Bits(v, 16), FlagLength, FlagDecoders, 0);
    DecodedChecks(DecodeWord(v), f);
  }

  /** What the decoder list accepts and yields, field by field: with a
      one-bit CD field, only the opcode and the rcode can be refused. */
  lemma DecodedChecks(r: Result<seq<FlagValue>>, f: seq<nat>)
    requires |f| == 10 && f[8] < 2
    requires r.Ok? <==> forall j :: 0 <= j < 10 ==> FlagDecoders[j](f[j]).Ok?
    requires r.Ok? ==> |r.value| == 10 && forall j :: 0 <= j < 10 ==> Ok(r.value[j]) == FlagDecoders[j](f[j])
    requires r.Err? ==> exists j :: 0 <= j < 10 && FlagDecoders[j](f[j]) == Err(r.error)
    ensures r.Ok? <==> f[1] in {0, 1, 2, 4, 5, 6} && f[9] < 12
    ensures r.Err? ==> r.error == ValueError
    ensures r.Ok? ==> r.value[0] == Flag(f[0] != 0)
                      && r.value[1].Op? && OpcodeValue(r.value[1].opcode) == f[1]
                      && r.value[9].Rc? && RcodeValue(r.value[9].rcode) == f[9]
  {
    FlagDecoder(0, f[0]);
    FlagDecoder(1, f[1]);
    FlagDecoder(8, f[8]);
    FlagDecoder(9, f[9]);
    if r.Err? {
      var j :| 0 <= j < 10 && FlagDecoders[j](f[j]) == Err(r.error);
      FlagDecoder(j, f[j]);
    } else if f[1] in {0, 1, 2, 4, 5, 6} && f[9] < 12 {
      forall j | 0 <= j < 10
        ensures FlagDecoders[j](f[j]).Ok?
      {
        FlagDecoder(j, f[j]);
      }
    }
  }

  /** A decoded flags word packs back into the same number, and so into the
      same four characters. */
  lemma DecodeFlagsPacks(flag: string)
    requires DecodeFlags(flag).Ok?
    ensures FlagsValue(DecodeFlags(flag).value) == HexValue(flag)
    ensures Hex(U16(FlagsValue(DecodeFlags(flag).value))) == flag
  {
    HexOfHexValue(flag);
    WordPacks(HexValue(flag));
  }

  /** The values decoded from a word weigh back to the word. */
  lemma WordPacks(v: nat)
    requires v < 65536 && DecodeWord(v).Ok?
    ensures FlagsValue(DecodeWord(v).value) == v
  {
    var f := FieldValues(SliceValue(Bits(v, 16)), FlagLength, 0);
    FieldsOfWord(v);
    DecodeFieldsOk(Bits(v, 16), FlagLength, FlagDecoders, 0);
    NumbersOfDecoded(DecodeWord(v).value, f);
  }

  /** Values decoded from numbers stand for those numbers, given that the
      one-bit fields hold 0 or 1. */
  lemma NumbersOfDecoded(r: seq<FlagValue>, f: seq<nat>)
    requires |r| == 10 && |f| == 10
    requires forall j :: 0 <= j < 10 ==> Ok(r[j]) == FlagDecoders[j](f[j])
    requires f[0] < 2 && f[2] < 2 && f[3] < 2 && f[4] < 2 && f[5] < 2 && f[7] < 2 && f[8] < 2
    ensures forall j :: 0 <= j < 10 ==> FlagNumber(r[j]) == f[j]
  {
    forall j | 0 <= j < 10
      ensures FlagNumber(r[j]) == f[j]
    {
      FlagDecoder(j, f[j]);
    }
  }

  /** The ten fields of a 16-bit word as decode_flags cuts them, and the word
      they pack back into. */
  lemma FieldsOfWord(v: nat)
    requires v < 65536
    ensures var f := FieldValues(SliceValue(Bits(v, 16)), FlagLength, 0);
            f[0] == v / 32768 % 2 && f[1] == v / 2048 % 16 && f[2] == v / 1024 % 2
            && f[3] == v / 512 % 2 && f[4] == v / 256 % 2 && f[5] == v / 128 % 2
            && f[6] == v / 64 % 2 && f[7] == v / 32 % 2 && f[8] == v / 16 % 2 && f[9] == v % 16
    ensures var f := FieldValues(SliceValue(Bits(v, 16)), FlagLength, 0);
            f[0] * 32768 + f[1] * 2048 + f[2] * 1024 + f[3] * 512 + f[4] * 256
            + f[5] * 128 + f[6] * 64 + f[7] * 32 + f[8] * 16 + f[9] == v
  {
    var bits := Bits(v, 16);
    FlagLengthSlices(bits);
    Pow2Values();
    Window(v, 16, 0, 1);
    Window(v, 16, 1, 5);
    Window(v, 16, 5, 6);
    Window(v, 16, 6, 7);
    Window(v, 16, 7, 8);
    Window(v, 16, 8, 9);
    Window(v, 16, 9, 10);
    Window(v, 16, 10, 11);
    Window(v, 16, 11, 12);
    Window(v, 16, 12, 16);
    WordOfFields(v);
  }

  /** The slices decode_flags' loop takes for the widths of FLAG_LENGTH. */
  lemma FlagLengthSlices(bits: seq<Bit>)
    requires |bits| == 16
    ensures var f := FieldValues(SliceValue(bits), FlagLength, 0);
            f[0] == BitsValue(bits[0..1]) && f[1] == BitsValue(bits[1..5])
            && f[2] == BitsValue(bits[5..6]) && f[3] == BitsValue(bits[6..7])
            && f[4] == BitsValue(bits[7..8]) && f[5] == BitsValue(bits[8..9])
            && f[6] == BitsValue(bits[9..10]) && f[7] == BitsValue(bits[10..11])
            && f[8] == BitsValue(bits[11..12]) && f[9] == BitsValue(bits[12..16])
  {
    FlagOffsets();
    FlagField(bits, 0, 0, 1);
    FlagField(bits, 1, 1, 5);
    FlagField(bits, 2, 5, 6);
    FlagField(bits, 3, 6, 7);
    FlagField(bits, 4, 7, 8);
    FlagField(bits, 5, 8, 9);
    FlagField(bits, 6, 9, 10);
    FlagField(bits, 7, 10, 11);
    FlagField(bits, 8, 11, 12);
    FlagField(bits, 9, 12, 16);
  }

  /** One field of FLAG_LENGTH, read from where the widths before it end. */
  lemma FlagField(bits: seq<Bit>, k: nat, a: nat, b: nat)
    requires k < |FlagLength| && a == Total(FlagLength[..k]) && b == a + FlagLength[k]
    requires a < b <= |bits|
    ensures FieldValues(SliceValue(bits), FlagLength, 0)[k] == BitsValue(bits[a..b])
  {
    FieldAt(SliceValue(bits), FlagLength, 0, k);
  }

  /** The sum of the widths. */
  function Total(ws: seq<nat>): nat
  {
    if ws == [] then 0 else ws[0] + Total(ws[1..])
  }

  /** Where each field of FLAG_LENGTH starts. */
  lemma FlagOffsets()
    ensures Total(FlagLength[..0]) == 0 && Total(FlagLength[..1]) == 1 && Total(FlagLength[..2]) == 5
    ensures Total(FlagLength[..3]) == 6 && Total(FlagLength[..4]) == 7 && Total(FlagLength[..5]) == 8
    ensures Total(FlagLength[..6]) == 9 && Total(FlagLength[..7]) == 10 && Total(FlagLength[..8]) == 11
    ensures Total(FlagLength[..9]) == 12 && Total(FlagLength) == 16
  {
    assert FlagLength[..0] == [];
    assert FlagLength[..10] == FlagLength;
    forall k | 0 <= k < 10
      ensures Total(FlagLength[..k + 1]) == Total(FlagLength[..k]) + FlagLength[k]
    {
      assert FlagLength[..k + 1] == FlagLength[..k] + [FlagLength[k]];
      TotalAppend(FlagLength[..k], FlagLength[k]);
    }
  }

  lemma {:induction false} TotalAppend(ws: seq<nat>, w: nat)
    ensures Total(ws + [w]) == Total(ws) + w
  {
    if ws != [] {
      assert (ws + [w])[1..] == ws[1..] + [w];
      TotalAppend(ws[1..], w);
    }
  }

  /** The `k`-th field decode_flags' loop reads is the slice that starts
      after the first `k` widths and is as wide as the `k`-th. */
  lemma {:induction false} FieldAt(read: (nat, nat) -> nat, ws: seq<nat>, index: nat, k: nat)
    requires k < |ws|
    ensures var start := index + Total(ws[..k]);
            FieldValues(read, ws, index)[k] == read(start, start + ws[k])
    decreases k
  {
    if k > 0 {
      FieldAt(read, ws[1..], index + ws[0], k - 1);
      assert ws[..k][1..] == ws[1..][..k - 1];
    } else {
      assert ws[..k] == [];
    }
  }

  /** The digits `a..b` of the `n` binary digits of `v` are the number
      `v / 2^(n-b) mod 2^(b-a)`. */
  lemma Window(v: nat, n: nat, a: nat, b: nat)
    requires a <= b <= n
    ensures BitsValue(Bits(v, n)[a..b]) == v / Pow2(n - b) % Pow2(b - a)
  {
    var u := Shr(v, n - b);
    BitsSplit(v, b, n - b);
    assert Bits(v, n)[a..b] == Bits(u, b)[a..b];
    BitsSplit(u, a, b - a);
    assert Bits(u, b)[a..b] == Bits(u, b - a);
    BitsValueOfBits(u, b - a);
    ShrDiv(v, n - b);
  }

  /** The ten fields of a 16-bit word weighed by their place give the word. */
  lemma WordOfFields(v: nat)
    requires v < 65536
    ensures v / 32768 % 2 * 32768 + v / 2048 % 16 * 2048 + v / 1024 % 2 * 1024
            + v / 512 % 2 * 512 + v / 256 % 2 * 256 + v / 128 % 2 * 128
            + v / 64 % 2 * 64 + v / 32 % 2 * 32 + v / 16 % 2 * 16 + v % 16 == v
  {
    WordLow(v);
    ModSplit(v, 1024, 2, 2048);
    ModSplit(v, 2048, 16, 32768);
    ModSplit(v, 32768, 2, 65536);
    assert v % 65536 == v;
  }

  lemma WordLow(v: nat)
    ensures v % 1024 == v / 512 % 2 * 512 + v / 256 % 2 * 256 + v / 128 % 2 * 128
            + v / 64 % 2 * 64 + v / 32 % 2 * 32 + v / 16 % 2 * 16 + v % 16
  {
    ModSplit(v, 16, 2, 32);
    ModSplit(v, 32, 2, 64);
    ModSplit(v, 64, 2, 128);
    ModSplit(v, 128, 2, 256);
    ModSplit(v, 256, 2, 512);
    ModSplit(v, 512, 2, 1024);
  }

  /** `v mod p*w` is the digit of weight `p` in base `w` above `v mod p`. */
  lemma ModSplit(v: nat, p: nat, w: nat, pw: nat)
    requires p > 0 && w > 0 && pw == p * w
    ensures v % pw == v / p % w * p + v % p
  {
    var q, r := v / p, v % p;
    var q2, r2 := q / w, q % w;
    Distrib(p, w, q2, r2);
    assert v == (p * w) * q2 + (p * r2 + r);
    MulNonneg(p, w - 1 - r2);
    Distrib(p, 1, w - 1 - r2, r2);
    assert p * r2 + r < p * w;
    DivModUnique(v, p * w, q2, p * r2 + r);
  }

  lemma Pow2Values()
    ensures Pow2(0) == 1 && Pow2(1) == 2 && Pow2(2) == 4 && Pow2(3) == 8 && Pow2(4) == 16
    ensures Pow2(5) == 32 && Pow2(6) == 64 && Pow2(7) == 128 && Pow2(8) == 256
    ensures Pow2(9) == 512 && Pow2(10) == 1024 && Pow2(11) == 2048 && Pow2(12) == 4096
    ensures Pow2(15) == 32768 && Pow2(16) == 65536
  {
    assert Pow2(1) == 2;
    assert Pow2(2) == 4;
    assert Pow2(3) == 8;
    assert Pow2(4) == 16;
    assert Pow2(5) == 32;
    assert Pow2(6) == 64;
    assert Pow2(7) == 128;
    assert Pow2(8) == 256;
    assert Pow2(9) == 512;
    assert Pow2(10) == 1024;
    assert Pow2(11) == 2048;
    assert Pow2(12) == 4096;
    assert Pow2(13) == 8192;
    assert Pow2(14) == 16384;
    assert Pow2(15) == 32768;
  }

  /** Four lower-case hexadecimal digits survive `int(_, 16)` followed by
      `to_bytes(2, 'big').hex()`. */
  lemma HexOfHexValue(h: string)
    requires IsLowerHex(h)
    ensures HexValue(h) < 65536 && Hex(U16(HexValue(h))) == h
  {
    var d0, d1, d2, d3 := DigitValue(h[0]), DigitValue(h[1]), DigitValue(h[2]), DigitValue(h[3]);
    var hi: Byte, lo: Byte := d0 * 16 + d1, d2 * 16 + d3;
    var v := HexValue(h);
    HexValueOfFour(h);
    DivModUnique(v, 256, hi, lo);
    assert U16(v) == [hi, lo];
    HexOfTwoBytes(hi, lo);
    HexOfByte(d0, d1);
    HexOfByte(d2, d3);
    assert h == [h[0], h[1], h[2], h[3]];
  }

  /** The value of four hexadecimal digits, two by two. */
  lemma HexValueOfFour(h: string)
    requires IsLowerHex(h)
    ensures HexValue(h) == (DigitValue(h[0]) * 16 + DigitValue(h[1])) * 256
                           + (DigitValue(h[2]) * 16 + DigitValue(h[3]))
  {
    var h1, h2, h3 := h[..1], h[..2], h[..3];
    assert h1[..0] == [] && h2[..1] == h1 && h3[..2] == h2 && h[..3] == h3;
    assert HexValue(h1) == DigitValue(h[0]);
    assert HexValue(h2) == DigitValue(h[0]) * 16 + DigitValue(h[1]);
    assert HexValue(h3) == (DigitValue(h[0]) * 16 + DigitValue(h[1])) * 16 + DigitValue(h[2]);
  }

  lemma HexOfTwoBytes(x: Byte, y: Byte)
    ensures Hex([x, y]) == [HexDigit(x / 16), HexDigit(x % 16), HexDigit(y / 16), HexDigit(y % 16)]
  {
    assert [x, y][..1] == [x];
    assert [x][..0] == [];
  }

  lemma HexOfByte(hi: nat, lo: nat)
    requires hi < 16 && lo < 16
    ensures (hi * 16 + lo) / 16 == hi && (hi * 16 + lo) % 16 == lo
  {
  }

  lemma MulAtLeast(d: int, k: int)
    requires d > 0 && k >= 1
    ensures d * k >= d
  {
    assert d * k == d * (k - 1) + d;
  }

  lemma DivModUnique(v: int, d: int, q: int, r: int)
    requires d > 0 && v == d * q + r && 0 <= r < d
    ensures v / d == q && v % d == r
  {
    var q', r' := v / d, v % d;
    assert d * q' + r' == d * q + r;
    if q' > q {
      assert d * (q' - q) == r - r' by { assert d * (q' - q) == d * q' - d * q; }
      MulAtLeast(d, q' - q);
      assert false;
    } else if q' < q {
      assert d * (q - q') == r' - r by { assert d * (q - q') == d * q - d * q'; }
      MulAtLeast(d, q - q');
      assert false;
    }
  }

  lemma Distrib(x: int, a: int, b: int, c: int)
    ensures x * (a * b + c) == (x * a) * b + x * c
  {
  }

  lemma MulNonneg(a: int, b: int)
    requires a >= 0 && b >= 0
    ensures a * b >= 0
  {
  }

  lemma DivDiv(v: nat, x: nat, y: nat)
    requires x > 0 && y > 0
    ensures (v / x) / y == v / (x * y)
  {
    var q, r := v / x, v % x;
    var q2, r2 := q / y, q % y;
    Distrib(x, y, q2, r2);
    assert v == (x * y) * q2 + (x * r2 + r);
    MulNonneg(x, y - 1 - r2);
    Distrib(x, 1, y - 1 - r2, r2);
    assert x * r2 + r < x * y;
    DivModUnique(v, x * y, q2, x * r2 + r);
  }

  /** Reading back the binary digits of `v` gives `v mod 2^n`. */
  lemma {:induction false} BitsValueOfBits(v: nat, n: nat)
    ensures BitsValue(Bits(v, n)) == v % Pow2(n)
  {
    if n > 0 {
      var s := Bits(v, n);
      assert s[..n - 1] == Bits(v / 2, n - 1);
      BitsValueOfBits(v / 2, n - 1);
      ModDouble(v, Pow2(n - 1));
    }
  }

  /** The remainder modulo `2p` from the remainder of `v / 2` modulo `p`
      and the lowest bit. */
  lemma ModDouble(v: nat, p: nat)
    requires p > 0
    ensures v % (2 * p) == 2 * ((v / 2) % p) + v % 2
  {
    var q, b := (v / 2) / p, (v / 2) % p;
    assert v / 2 == p * q + b;
    assert v == 2 * (v / 2) + v % 2;
    Distrib(2, p, q, b);
    assert v == (2 * p) * q + (2 * b + v % 2);
    DivModUnique(v, 2 * p, q, 2 * b + v % 2);
  }

  /** Cutting the digits of `v` after the first `a` of `a + b`. */
  lemma {:induction false} BitsSplit(v: nat, a: nat, b: nat)
    ensures Bits(v, a + b) == Bits(Shr(v, b), a) + Bits(v, b)
  {
    if b > 0 {
      BitsSplit(v / 2, a, b - 1);
      assert Bits(v, a + b) == Bits(v / 2, a + b - 1) + [v % 2];
    }
  }

  /** Shifting right by `b` bits divides by `2^b`. */
  lemma {:induction false} ShrDiv(v: nat, b: nat)
    ensures Shr(v, b) == v / Pow2(b)
  {
    if b > 0 {
      ShrDiv(v / 2, b - 1);
      DivDiv(v, 2, Pow2(b - 1));
    }
  }
}
