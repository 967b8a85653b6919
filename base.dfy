/** Values shared by the encoder and the decoder of final.py: bytes, the
    exceptions the codec raises, Python's slicing, `int.from_bytes`,
    `bytes.hex()` and `str.split('.')`. */
module DnsBase {

  type Byte = b: int | 0 <= b < 256
  type Bytes = seq<Byte>

  /** The exceptions the codec raises. `RecursionError` is what Python raises
      when pointer following nests deeper than the interpreter allows. */
  datatype Error = ValueError | KeyError | IndexError | RecursionError

  datatype Result<T> = Ok(value: T) | Err(error: Error)

  /** The outcome of a method that returns nothing or raises. */
  datatype Outcome = Pass | Fail(error: Error)

  datatype Option<T> = None | Some(value: T)

  /** The byte of '.', which `'.'.join` puts between labels. */
  const Dot: Byte := 46

  function Min(a: int, b: int): int { if a < b then a else b }

  /** Python's `s[a:b]` for non-negative bounds: clipped at the end of `s`,
      empty when `a >= b` or `a >= len(s)`. */
  function Slice(s: Bytes, a: nat, b: nat): (r: Bytes)
    ensures |r| == if a < b && a < |s| then Min(b, |s|) - a else 0
    ensures forall i :: 0 <= i < |r| ==> r[i] == s[a + i]
  {
    if a < b && a < |s| then s[a..Min(b, |s|)] else []
  }

  function Pow256(k: nat): (p: nat)
    ensures p >= 1
  {
    if k == 0 then 1 else 256 * Pow256(k - 1)
  }

  /** `int.from_bytes(s, 'big')`, which byte2int (final.py:49-52) returns;
      the empty sequence reads as 0. */
  function BigEndian(s: Bytes): (n: nat)
    ensures n < Pow256(|s|)
  {
    if s == [] then 0 else BigEndian(s[..|s| - 1]) * 256 + s[|s| - 1]
  }

  /** `n.to_bytes(2, 'big')`. */
  function U16(n: nat): (r: Bytes)
    requires n < 65536
    ensures |r| == 2 && BigEndian(r) == n
  {
    var r: Bytes := [n / 256, n % 256];
    assert r[..1] == [n / 256];
    r
  }

  /** `n.to_bytes(k, 'big')`, the inverse of BigEndian. */
  function ToBigEndian(n: nat, k: nat): (r: Bytes)
    requires n < Pow256(k)
    ensures |r| == k && BigEndian(r) == n
  {
    if k == 0 then []
    else
      var r := ToBigEndian(n / 256, k - 1) + [n % 256];
      assert r[..k - 1] == ToBigEndian(n / 256, k - 1);
      r
  }

  /** The total length of a list of byte strings. */
  function SumLengths(chunks: seq<Bytes>): nat
  {
    if chunks == [] then 0 else |chunks[0]| + SumLengths(chunks[1..])
  }

  /** `'.'.join(chunks)` over byte strings: the chunks and one separator
      between each two of them. */
  function Join(chunks: seq<Bytes>): (r: Bytes)
    ensures chunks == [] ==> r == []
    ensures chunks != [] ==> |r| == SumLengths(chunks) + |chunks| - 1 && r[..|chunks[0]|] == chunks[0]
  {
    if chunks == [] then []
    else if |chunks| == 1 then chunks[0]
    else chunks[0] + [Dot] + Join(chunks[1..])
  }

  /** Membership in "0123456789abcdef". */
  predicate IsHexDigit(c: char)
  {
    '0' <= c <= '9' || 'a' <= c <= 'f'
  }

  /** Character `d` of "0123456789abcdef". */
  function HexDigit(d: nat): (c: char)
    requires d < 16
    ensures IsHexDigit(c)
  {
    if d < 10 then ('0' as int + d) as char else ('a' as int + d - 10) as char
  }

  /** The value of one character of "0123456789abcdef". */
  function DigitValue(c: char): (d: nat)
    requires IsHexDigit(c)
    ensures d < 16 && HexDigit(d) == c
  {
    if '0' <= c <= '9' then c as int - '0' as int else c as int - 'a' as int + 10
  }

  function Pow16(k: nat): (p: nat)
    ensures p >= 1
  {
    if k == 0 then 1 else 16 * Pow16(k - 1)
  }

  /** `int(h, 16)` for a string of lower-case hexadecimal digits. */
  function HexValue(h: string): (n: nat)
    requires forall i :: 0 <= i < |h| ==> IsHexDigit(h[i])
    ensures n < Pow16(|h|)
  {
    if h == [] then 0 else HexValue(h[..|h| - 1]) * 16 + DigitValue(h[|h| - 1])
  }

  /** `bytes.hex()`: two lower-case hexadecimal digits per byte. */
  function Hex(s: Bytes): (h: string)
    ensures |h| == 2 * |s|
    ensures forall i :: 0 <= i < |h| ==> IsHexDigit(h[i])
  {
    if s == [] then [] else Hex(s[..|s| - 1]) + [HexDigit(s[|s| - 1] / 16), HexDigit(s[|s| - 1] % 16)]
  }

  lemma DigitValueOfDigit(d: nat)
    requires d < 16
    ensures DigitValue(HexDigit(d)) == d
  {
  }

  /** Reading `bytes.hex()` back with `int(_, 16)` gives `int.from_bytes`. */
  lemma {:induction false} HexValueOfHex(s: Bytes)
    ensures HexValue(Hex(s)) == BigEndian(s)
  {
    if s != [] {
      var init, last := s[..|s| - 1], s[|s| - 1];
      var h := Hex(s);
      var hi, lo := HexDigit(last / 16), HexDigit(last % 16);
      assert h == Hex(init) + [hi] + [lo];
      assert h[..|h| - 1] == Hex(init) + [hi];
      assert (Hex(init) + [hi])[..|Hex(init)|] == Hex(init);
      HexValueOfHex(init);
      DigitValueOfDigit(last / 16);
      DigitValueOfDigit(last % 16);
      calc {
        HexValue(h);
        HexValue(Hex(init) + [hi]) * 16 + last % 16;
        (BigEndian(init) * 16 + last / 16) * 16 + last % 16;
        BigEndian(init) * 256 + last;
      }
    }
  }

  /** Python's `s.split('.')` on text: always at least one part, empty parts
      kept. */
  function Split(s: string): (parts: seq<string>)
    ensures |parts| >= 1
    ensures forall i :: 0 <= i < |parts| ==> '.' !in parts[i]
  {
    if s == [] then [[]]
    else if s[0] == '.' then [[]] + Split(s[1..])
    else
      var rest := Split(s[1..]);
      [[s[0]] + rest[0]] + rest[1..]
  }

  /** `'.'.join(parts)` on text. */
  function JoinText(parts: seq<string>): string
  {
    if parts == [] then []
    else if |parts| == 1 then parts[0]
    else parts[0] + "." + JoinText(parts[1..])
  }

  /** Splitting on '.' and joining with '.' gives the text back. */
  lemma {:induction false} JoinSplit(s: string)
    ensures JoinText(Split(s)) == s
  {
    if s != [] {
      JoinSplit(s[1..]);
      var rest := Split(s[1..]);
      if s[0] == '.' {
        assert Split(s) == [[]] + rest;
        assert (([[]] + rest)[1..]) == rest;
      } else {
        var parts := Split(s);
        assert parts == [[s[0]] + rest[0]] + rest[1..];
        if |rest| == 1 {
          assert JoinText(parts) == [s[0]] + rest[0];
        } else {
          assert parts[1..] == rest[1..];
          assert JoinText(rest) == rest[0] + "." + JoinText(rest[1..]);
        }
      }
    }
  }
}
