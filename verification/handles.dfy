/** File handles: an inode number printed in decimal into eight bytes with
    `snprintf("%ld")` and read back with `simple_strtoul(.., 0)` on both sides.
    `unsigned long` is 64 bits wide.
 */
module Handles {
  import opened Xdr
  import opened Protocol

  const MAX_EXACT_INO: nat := 9_999_999

  type FhData = d: seq<byte> | |d| == FHSIZE witness [0, 0, 0, 0, 0, 0, 0, 0]

  /** `struct vsnfs_fh`; the int `type` is held as its 32-bit pattern. */
  datatype Fh = Fh(data: FhData, typ: u32)

  // ---------- printing

  function Decimal(n: nat): (text: seq<byte>)
    ensures |text| >= 1
  {
    if n < 10 then [48 + n] else Decimal(n / 10) + [48 + n % 10]
  }

  /** `%ld` applied to an `unsigned long`: the top half prints as negative. */
  function FormatLong(ino: u64): (text: seq<byte>)
    ensures |text| >= 1
  {
    if ino < 0x8000_0000_0000_0000 then Decimal(ino)
    else [45] + Decimal(0x1_0000_0000_0000_0000 - ino)
  }

  /** `snprintf(buf, 8, ..)`: at most seven characters and a NUL; the bytes
      after the NUL keep what the buffer held before. */
  function Snprintf(before: FhData, text: seq<byte>): (data: FhData) {
    var kept := if |text| < FHSIZE then text else text[..FHSIZE - 1];
    kept + [0] + before[|kept| + 1..]
  }

  function PrintIno(before: FhData, ino: u64): FhData {
    Snprintf(before, FormatLong(ino))
  }

  // ---------- parsing

  function DigitValue(c: byte): (v: nat) {
    if 48 <= c <= 57 then c - 48
    else if 97 <= c <= 102 then c - 97 + 10
    else if 65 <= c <= 70 then c - 65 + 10
    else 255
  }

  predicate IsX(c: byte) { c == 120 || c == 88 }

  /** Base selection for base 0: a leading 0x before a hex digit, a leading 0, or decimal. */
  function GuessBase(cp: seq<byte>): nat {
    if ByteAt(cp, 0) != 48 then 10
    else if IsX(ByteAt(cp, 1)) && DigitValue(ByteAt(cp, 2)) < 16 then 16
    else 8
  }

  datatype Parsed = Parsed(value: u64, rest: seq<byte>)

  function ParseDigits(cp: seq<byte>, base: nat, acc: u64): (r: Parsed)
    requires base <= 16
    ensures |r.rest| <= |cp|
  {
    if cp == [] || DigitValue(cp[0]) >= base then Parsed(acc, cp)
    else ParseDigits(cp[1..], base, (acc * base + DigitValue(cp[0])) % 0x1_0000_0000_0000_0000)
  }

  /** `simple_strtoul(cp, &end, 0)`: the value and what is left unread. */
  function Strtoul(cp: seq<byte>): Parsed {
    var base := GuessBase(cp);
    ParseDigits(if base == 16 && |cp| >= 2 then cp[2..] else cp, base, 0)
  }

  /** The inode number a handle stands for, on either side. */
  function Number(data: FhData): u64 {
    Strtoul(data).value
  }

  // ---------- print then parse

  function Pow10(k: nat): nat {
    if k == 0 then 1 else 10 * Pow10(k - 1)
  }

  lemma {:induction false} DecimalLength(n: nat, k: nat)
    requires k >= 1
    ensures |Decimal(n)| <= k <==> n < Pow10(k)
  {
    if k == 1 {
      assert Pow10(1) == 10 * Pow10(0);
    } else if n >= 10 {
      DecimalLength(n / 10, k - 1);
    } else {
      assert Pow10(k) >= 10 by { Pow10Grows(k); }
    }
  }

  lemma {:induction false} Pow10Grows(k: nat)
    requires k >= 1
    ensures Pow10(k) >= 10
  {
    if k > 1 { Pow10Grows(k - 1); } else { assert Pow10(0) == 1; }
  }

  lemma ExactBound()
    ensures Pow10(7) == MAX_EXACT_INO + 1
  {
    assert Pow10(2) == 100;
    assert Pow10(4) == 10000;
    assert Pow10(6) == 1000000;
  }

  /** The number that survives the seven-character cut. */
  function LeadingSeven(n: nat): (r: nat)
    ensures r <= MAX_EXACT_INO
    ensures n <= MAX_EXACT_INO ==> r == n
  {
    if n <= MAX_EXACT_INO then n else LeadingSeven(n / 10)
  }

  lemma {:induction false} DecimalCut(n: nat)
    ensures var d := Decimal(n);
            (if |d| < FHSIZE then d else d[..FHSIZE - 1]) == Decimal(LeadingSeven(n))
  {
    ExactBound();
    DecimalLength(n, 7);
    if n > MAX_EXACT_INO {
      DecimalCut(n / 10);
      DecimalLength(n / 10, 7);
      DecimalLength(n / 10, 6);
      assert Pow10(7) == 10 * Pow10(6);
      assert Decimal(n)[..7] == Decimal(n / 10)[..7];
      if |Decimal(n / 10)| == 7 {
        assert Decimal(n / 10)[..7] == Decimal(n / 10);
      }
    }
  }

  lemma {:induction false} DecimalFirst(n: nat)
    ensures 48 <= Decimal(n)[0] <= 57
    ensures Decimal(n)[0] == 48 <==> n == 0
  {
    if n >= 10 { DecimalFirst(n / 10); }
  }

  lemma ParseStep(d: nat, tail: seq<byte>, acc: u64)
    requires d < 10 && acc * 10 + d < 0x1_0000_0000_0000_0000
    ensures ParseDigits([48 + d] + tail, 10, acc) == ParseDigits(tail, 10, acc * 10 + d)
  {
    assert ([48 + d] + tail)[1..] == tail;
  }

  lemma {:induction false} ParseDecimal(n: u64, tail: seq<byte>)
    ensures ParseDigits(Decimal(n) + tail, 10, 0) == ParseDigits(tail, 10, n)
  {
    if n < 10 {
      ParseStep(n, tail, 0);
    } else {
      var last := [48 + n % 10] + tail;
      assert Decimal(n) + tail == Decimal(n / 10) + last;
      ParseDecimal(n / 10, last);
      ParseStep(n % 10, tail, n / 10);
    }
  }

  /** A printed number, NUL-terminated, reads back whatever follows the NUL. */
  lemma StrtoulOfDecimal(n: u64, tail: seq<byte>)
    requires tail == [] || tail[0] == 0
    ensures Strtoul(Decimal(n) + tail) == Parsed(n, tail)
  {
    var cp := Decimal(n) + tail;
    DecimalFirst(n);
    if n == 0 {
      assert cp[0] == 48 && ByteAt(cp, 1) == 0;
      assert GuessBase(cp) == 8;
      assert cp[1..] == tail;
      assert ParseDigits(cp, 8, 0) == ParseDigits(tail, 8, 0);
    } else {
      assert GuessBase(cp) == 10;
      ParseDecimal(n, tail);
    }
  }

  lemma MinusParsesAsZero(cp: seq<byte>)
    requires cp != [] && cp[0] == 45
    ensures Strtoul(cp).value == 0
  {
  }

  /** What a handle parses to, for every inode number and every previous buffer. */
  lemma NumberOfPrint(before: FhData, ino: u64)
    ensures Number(PrintIno(before, ino)) == if ino < 0x8000_0000_0000_0000 then LeadingSeven(ino) else 0
  {
    var data := PrintIno(before, ino);
    if ino < 0x8000_0000_0000_0000 {
      var lead := Decimal(LeadingSeven(ino));
      DecimalCut(ino);
      var tail := [0] + before[|lead| + 1..];
      assert data == lead + tail;
      StrtoulOfDecimal(LeadingSeven(ino), tail);
    } else {
      MinusParsesAsZero(data);
    }
  }

  /** A handle names its inode exactly up to seven digits, and no further. */
  lemma HandleExactIffSevenDigits(before: FhData, ino: u64)
    ensures Number(PrintIno(before, ino)) == ino <==> ino <= MAX_EXACT_INO
  {
    NumberOfPrint(before, ino);
  }

  /** Two handles printed by the server denote the same number on the client
      exactly when they come from the same inode, within the bound. */
  lemma HandlesIdentify(b1: FhData, b2: FhData, i: u64, j: u64)
    requires i <= MAX_EXACT_INO && j <= MAX_EXACT_INO
    ensures Number(PrintIno(b1, i)) == Number(PrintIno(b2, j)) <==> i == j
  {
    NumberOfPrint(b1, i);
    NumberOfPrint(b2, j);
  }

  /** Beyond the bound two inodes share a number: the failing family's smallest pair. */
  lemma HandlesCollide(before: FhData)
    ensures Number(PrintIno(before, 10_000_000)) == Number(PrintIno(before, 10_000_001)) == 1_000_000
  {
    NumberOfPrint(before, 10_000_000);
    NumberOfPrint(before, 10_000_001);
    assert LeadingSeven(1_000_000) == 1_000_000;
  }

  // ---------- what printing and parsing mean, digit by digit

  /** The value of a string of decimal digits. */
  function ValueOf(text: seq<byte>): int {
    if text == [] then 0 else 10 * ValueOf(text[..|text| - 1]) + (text[|text| - 1] as int - 48)
  }

  /** Decimal notation: digits only, no leading zero, the right value. */
  lemma {:induction false} DecimalIsNotation(n: nat)
    ensures forall k :: 0 <= k < |Decimal(n)| ==> '0' as int <= Decimal(n)[k] <= '9' as int
    ensures ValueOf(Decimal(n)) == n
    ensures n >= 10 ==> Decimal(n)[0] != '0' as int
  {
    if n < 10 {
      assert Decimal(n)[..0] == [];
      assert ValueOf([]) == 0;
    } else {
      DecimalIsNotation(n / 10);
      DecimalFirst(n);
      assert Decimal(n)[..|Decimal(n)| - 1] == Decimal(n / 10);
    }
  }

  /** The eight bytes of a printed handle: the leading digits, a NUL, and after it
      what the buffer held before. */
  lemma PrintedBytes(before: FhData, ino: u64)
    requires ino < 0x8000_0000_0000_0000
    ensures var text := Decimal(LeadingSeven(ino));
            var data := PrintIno(before, ino);
            && |text| <= 7 && data[..|text|] == text && data[|text|] == 0
            && forall k :: |text| < k < 8 ==> data[k] == before[k]
  {
    DecimalCut(ino);
    ExactBound();
    DecimalLength(LeadingSeven(ino), 7);
  }

  /** The digit characters, both cases of the letters. */
  lemma DigitValues(d: nat)
    requires d < 16
    ensures DigitValue(if d < 10 then '0' as int + d else 'a' as int + d - 10) == d
    ensures DigitValue(if d < 10 then '0' as int + d else 'A' as int + d - 10) == d
    ensures forall c: byte :: DigitValue(c) < 16 <==>
              '0' as int <= c <= '9' as int || 'a' as int <= c <= 'f' as int || 'A' as int <= c <= 'F' as int
  {
  }

  /** A number written in octal or hexadecimal, in lower case. */
  function Numeral(n: nat, base: nat): (text: seq<byte>)
    requires base == 8 || base == 16
    ensures |text| >= 1
  {
    if n < base then [DigitChar(n)] else Numeral(n / base, base) + [DigitChar(n % base)]
  }

  function DigitChar(d: nat): (c: byte)
    requires d < 16
    ensures DigitValue(c) == d && c != 120 && c != 88
  {
    if d < 10 then 48 + d else 97 + d - 10
  }

  lemma DigitStep(base: nat, d: nat, tail: seq<byte>, acc: u64, sum: u64)
    requires base == 8 || base == 16
    requires d < base && sum == (if base == 8 then acc * 8 + d else acc * 16 + d)
    ensures ParseDigits([DigitChar(d)] + tail, base, acc) == ParseDigits(tail, base, sum)
  {
    var cp := [DigitChar(d)] + tail;
    assert cp[1..] == tail && DigitValue(cp[0]) == d;
    if base == 8 {
      assert (acc * 8 + d) % 0x1_0000_0000_0000_0000 == sum;
    } else {
      assert (acc * 16 + d) % 0x1_0000_0000_0000_0000 == sum;
    }
  }

  lemma {:induction false} ParseNumeral(n: u64, base: nat, tail: seq<byte>)
    requires base == 8 || base == 16
    ensures ParseDigits(Numeral(n, base) + tail, base, 0) == ParseDigits(tail, base, n)
    decreases n
  {
    if n < base {
      DigitStep(base, n, tail, 0, n);
    } else {
      var last := [DigitChar(n % base)] + tail;
      assert Numeral(n, base) + tail == Numeral(n / base, base) + last;
      ParseNumeral(n / base, base, last);
      DigitStep(base, n % base, tail, n / base, n);
    }
  }

  lemma {:induction false} NumeralFirst(n: nat, base: nat)
    requires base == 8 || base == 16
    ensures DigitValue(Numeral(n, base)[0]) < base && Numeral(n, base)[0] != 120 && Numeral(n, base)[0] != 88
  {
    if n >= base { NumeralFirst(n / base, base); }
  }

  /** Base 0 reads hexadecimal after 0x. */
  lemma StrtoulHex(n: u64, x: byte)
    requires x == 120 || x == 88
    ensures Strtoul([48, x] + Numeral(n, 16)) == Parsed(n, [])
  {
    var hex := Numeral(n, 16);
    var cp := [48, x] + hex;
    NumeralFirst(n, 16);
    assert cp[2] == hex[0] && cp[2..] == hex;
    ParseNumeral(n, 16, []);
    assert hex + [] == hex;
  }

  /** Base 0 reads octal after 0. */
  lemma StrtoulOctal(n: u64)
    ensures Strtoul([48] + Numeral(n, 8)) == Parsed(n, [])
  {
    var oct := Numeral(n, 8);
    var cp := [48] + oct;
    NumeralFirst(n, 8);
    assert cp[1] == oct[0] && cp[1..] == oct;
    assert GuessBase(cp) == 8;
    ParseNumeral(n, 8, []);
    assert oct + [] == oct;
    DigitStep(8, 0, oct, 0, 0);
    assert [DigitChar(0)] + oct == cp;
  }
}
