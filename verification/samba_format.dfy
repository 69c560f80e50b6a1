/**
 * The text and byte formats of NXTSamba, the host side of the Atmel SAM-BA boot-ROM protocol
 * subset used to write the NXT's flash: fixed-width hex fields, ISO-8859-1 command lines,
 * little-endian words, the flash page packet handed to the helper routine, the lock-region
 * command word, and the page plans of writePages and readPages.
 */
module SambaFormat {
  import opened Bytes

  // Command characters
  const CMD_GOTO: char := 'G'
  const CMD_TEXT: char := 'T'
  const CMD_NON_TEXT: char := 'N'
  const CMD_VERSION: char := 'V'
  const CMD_READ_OCTET: char := 'o'
  const CMD_READ_HWORD: char := 'h'
  const CMD_READ_WORD: char := 'w'
  const CMD_WRITE_OCTET: char := 'O'
  const CMD_WRITE_HWORD: char := 'H'
  const CMD_WRITE_WORD: char := 'W'
  const CMD_STREAM_READ: char := 'R'
  const CMD_STREAM_WRITE: char := 'S'
  const PROMPT_CHAR: Byte := 0x3E
  const TERMINATOR: string := "#\n"

  // Memory map: 64KB of RAM at 0x200000 and 256KB of flash at 0x100000 in 256-byte pages.
  const RAM_BASE: int := 0x0020_0000
  const RAM_MAX: int := 0x0021_0000
  const FLASH_BASE: int := 0x0010_0000
  const FLASH_MAX: int := 0x0014_0000
  const FLASH_SIZE: int := FLASH_MAX - FLASH_BASE
  const PAGE_SIZE: nat := 256
  const PAGE_MAX: int := FLASH_SIZE / PAGE_SIZE

  /** Section 21.6 of the AT91SAM7S datasheet leaves 0x202000-0x210000 of the RAM unused by SAM-BA. */
  const SAMBA_RAM_BASE: int := RAM_BASE + 0x2000
  const SAMBA_RAM_MAX: int := RAM_MAX
  const HELPER_STACKSIZE: int := 0x1000
  const HELPER_CODEADR: int := SAMBA_RAM_BASE + HELPER_STACKSIZE
  /** A page number and a page of data. */
  const HELPER_PACKET: nat := PAGE_SIZE + 4

  // ---------------------------------------------------------------------------------------
  // Hex fields

  predicate IsHexDigit(c: char)
  {
    '0' <= c <= '9' || 'A' <= c <= 'F'
  }

  function HexDigit(d: nat): (c: char)
    requires d < 16
    ensures IsHexDigit(c)
  {
    if d < 10 then ('0' as int + d) as char else ('A' as int + d - 10) as char
  }

  function HexValue(c: char): (d: nat)
    requires IsHexDigit(c)
    ensures d < 16
  {
    if c <= '9' then c as int - '0' as int else c as int - 'A' as int + 10
  }

  function Pow16(n: nat): (p: nat)
    ensures p >= 1
  {
    if n == 0 then 1 else 16 * Pow16(n - 1)
  }

  /**
   * hexFormat(value, len): character i is the nibble of `value >>> 4*(len-i-1)`; Java masks
   * the shift count to five bits.
   */
  function HexFormat(value: Int32, len: nat): (r: string)
    ensures |r| == len
    ensures forall i :: 0 <= i < len ==> IsHexDigit(r[i])
  {
    seq(len, i requires 0 <= i < len => Nibble(value, 4 * (len - i - 1)))
  }

  /** The hex digit of `value >>> shift`'s low four bits. */
  function Nibble(value: Int32, shift: nat): (c: char)
    ensures IsHexDigit(c)
  {
    HexDigit(UShr(value, shift) % 16)
  }

  /** Reference: the n low hex digits of u, most significant first. */
  function HexDigits(u: nat, n: nat): (r: string)
    ensures |r| == n
    ensures forall i :: 0 <= i < n ==> IsHexDigit(r[i])
    decreases n
  {
    if n == 0 then [] else HexDigits(Shr(u, 4), n - 1) + [HexDigit(u % 16)]
  }

  /** The number a string of hex digits denotes. */
  function ParseHex(s: string): nat
    requires forall i :: 0 <= i < |s| ==> IsHexDigit(s[i])
  {
    if |s| == 0 then 0 else 16 * ParseHex(s[..|s| - 1]) + HexValue(s[|s| - 1])
  }

  lemma {:induction false} HexDigitsAt(u: nat, n: nat, i: nat)
    requires i < n
    ensures HexDigits(u, n)[i] == HexDigit(Shr(u, 4 * (n - i - 1)) % 16)
    decreases n
  {
    if i < n - 1 {
      HexDigitsAt(Shr(u, 4), n - 1, i);
      ShrAdd(u, 4, 4 * (n - 1 - i - 1));
    }
  }

  /** Up to eight digits, hexFormat writes the low digits of the unsigned value. */
  lemma HexFormatDigits(v: Int32, n: nat)
    requires n <= 8
    ensures HexFormat(v, n) == HexDigits(U32(v), n)
  {
    forall i | 0 <= i < n
      ensures HexFormat(v, n)[i] == HexDigits(U32(v), n)[i]
    {
      HexDigitsAt(U32(v), n, i);
      assert 4 * (n - i - 1) % 32 == 4 * (n - i - 1);
    }
  }

  lemma ModDivStep16(v: nat, p: nat)
    requires p >= 1
    ensures v % 16 + 16 * ((v / 16) % p) == v % (16 * p)
  {
    var q := v / 16;
    var r := v % 16;
    var q2 := q / p;
    var r2 := q % p;
    assert q == p * q2 + r2;
    assert v == (16 * p) * q2 + (16 * r2 + r);
    DivModUnique(v, 16 * p, q2, 16 * r2 + r);
  }

  lemma Shr4(u: nat)
    ensures Shr(u, 4) == u / 16
  {
    ShrDiv(u, 4);
  }

  /** Parsing the digits gives back the value modulo 16^n. */
  lemma {:induction false} ParseHexDigits(u: nat, n: nat)
    ensures ParseHex(HexDigits(u, n)) == u % Pow16(n)
    decreases n
  {
    if n > 0 {
      var h := HexDigits(u, n);
      assert h[..n - 1] == HexDigits(Shr(u, 4), n - 1);
      ParseHexDigits(Shr(u, 4), n - 1);
      Shr4(u);
      assert HexValue(HexDigit(u % 16)) == u % 16;
      ModDivStep16(u, Pow16(n - 1));
    }
  }

  /** Formatting a parsed string of upper-case hex digits gives it back. */
  lemma {:induction false} HexDigitsParse(s: string)
    requires forall i :: 0 <= i < |s| ==> IsHexDigit(s[i])
    ensures HexDigits(ParseHex(s), |s|) == s
  {
    if |s| > 0 {
      var init := s[..|s| - 1];
      var u := ParseHex(s);
      var last := HexValue(s[|s| - 1]);
      DivModUnique(u, 16, ParseHex(init), last);
      Shr4(u);
      HexDigitsParse(init);
      assert HexDigit(last) == s[|s| - 1];
    }
  }

  /** hexFormat round trip: eight digits denote the whole unsigned value, n digits its low 4n bits. */
  lemma HexFormatValue(v: Int32, n: nat)
    requires n <= 8
    ensures ParseHex(HexFormat(v, n)) == U32(v) % Pow16(n)
    ensures n == 8 ==> ParseHex(HexFormat(v, n)) == U32(v)
  {
    HexFormatDigits(v, n);
    ParseHexDigits(U32(v), n);
    if n == 8 {
      assert Pow16(8) == TWO_32;
    }
  }

  // ---------------------------------------------------------------------------------------
  // Command lines

  /** Java's String.valueOf for a non-negative int. */
  function Decimal(n: nat): (r: string)
    ensures |r| > 0 && forall i :: 0 <= i < |r| ==> '0' <= r[i] <= '9'
  {
    if n < 10 then [('0' as int + n) as char] else Decimal(n / 10) + [('0' as int + n % 10) as char]
  }

  function ParseDecimal(s: string): nat
    requires forall i :: 0 <= i < |s| ==> '0' <= s[i] <= '9'
  {
    if |s| == 0 then 0 else 10 * ParseDecimal(s[..|s| - 1]) + (s[|s| - 1] as int - '0' as int)
  }

  lemma {:induction false} DecimalParses(n: nat)
    ensures ParseDecimal(Decimal(n)) == n
  {
    var d := Decimal(n);
    if n >= 10 {
      assert d[..|d| - 1] == Decimal(n / 10);
      DecimalParses(n / 10);
    } else {
      assert d[..0] == [];
    }
  }

  /** sendInitCommand */
  function InitCommand(cmd: char): string
  {
    [cmd] + TERMINATOR
  }

  /** sendGotoCommand */
  function GotoCommand(addr: Int32): string
  {
    [CMD_GOTO] + HexFormat(addr, 8) + TERMINATOR
  }

  /** sendStreamCommand */
  function StreamCommand(cmd: char, addr: Int32, len: Int32): string
  {
    [cmd] + HexFormat(addr, 8) + "," + HexFormat(len, 8) + TERMINATOR
  }

  /** sendWriteCommand: the value as 2*width hex digits. */
  function WriteCommand(cmd: char, addr: Int32, width: nat, value: Int32): string
  {
    [cmd] + HexFormat(addr, 8) + "," + HexFormat(value, 2 * width) + TERMINATOR
  }

  /** sendReadCommand: the width in decimal. */
  function ReadCommand(cmd: char, addr: Int32, width: nat): string
  {
    [cmd] + HexFormat(addr, 8) + "," + Decimal(width) + TERMINATOR
  }

  /** A command line of the form c AAAAAAAA , field #\n: what the boot ROM parses out of it. */
  predicate Denotes(line: string, cmd: char, addr: Int32, fieldLen: nat)
  {
    |line| == 1 + 8 + 1 + fieldLen + 2
    && line[0] == cmd
    && (forall i :: 1 <= i < 9 ==> IsHexDigit(line[i])) && ParseHex(line[1..9]) == U32(addr)
    && line[9] == ','
    && line[10 + fieldLen..] == TERMINATOR
  }

  /** A word, halfword or octet write names the command, the address and the low 8*width bits of the value. */
  lemma WriteCommandParses(cmd: char, addr: Int32, width: nat, value: Int32)
    requires width <= 4
    ensures var line := WriteCommand(cmd, addr, width, value);
            Denotes(line, cmd, addr, 2 * width)
            && (forall i :: 10 <= i < 10 + 2 * width ==> IsHexDigit(line[i]))
            && ParseHex(line[10..10 + 2 * width]) == U32(value) % Pow16(2 * width)
  {
    var line := WriteCommand(cmd, addr, width, value);
    assert line[1..9] == HexFormat(addr, 8);
    assert line[10..10 + 2 * width] == HexFormat(value, 2 * width);
    assert line[10 + 2 * width..] == TERMINATOR;
    HexFormatValue(addr, 8);
    HexFormatValue(value, 2 * width);
  }

  /** A stream command names the command, the address and the whole unsigned length. */
  lemma StreamCommandParses(cmd: char, addr: Int32, len: Int32)
    ensures var line := StreamCommand(cmd, addr, len);
            Denotes(line, cmd, addr, 8)
            && (forall i :: 10 <= i < 18 ==> IsHexDigit(line[i]))
            && ParseHex(line[10..18]) == U32(len)
  {
    var line := StreamCommand(cmd, addr, len);
    assert line[1..9] == HexFormat(addr, 8);
    assert line[10..18] == HexFormat(len, 8);
    assert line[18..] == TERMINATOR;
    HexFormatValue(addr, 8);
    HexFormatValue(len, 8);
  }

  /** A read command names the command, the address and the width in decimal. */
  lemma ReadCommandParses(cmd: char, addr: Int32, width: nat)
    ensures var line := ReadCommand(cmd, addr, width);
            var digits := |Decimal(width)|;
            Denotes(line, cmd, addr, digits)
            && (forall i :: 10 <= i < 10 + digits ==> '0' <= line[i] <= '9')
            && ParseDecimal(line[10..10 + digits]) == width
  {
    var line := ReadCommand(cmd, addr, width);
    var digits := |Decimal(width)|;
    assert line[1..9] == HexFormat(addr, 8);
    assert line[10..10 + digits] == Decimal(width);
    assert line[10 + digits..] == TERMINATOR;
    HexFormatValue(addr, 8);
    DecimalParses(width);
  }

  /** A goto command: 'G', the eight-digit address, the terminator. */
  lemma GotoCommandParses(addr: Int32)
    ensures var line := GotoCommand(addr);
            |line| == 11 && line[0] == CMD_GOTO && line[9..] == TERMINATOR
            && (forall i :: 1 <= i < 9 ==> IsHexDigit(line[i])) && ParseHex(line[1..9]) == U32(addr)
  {
    var line := GotoCommand(addr);
    assert line[1..9] == HexFormat(addr, 8);
    assert line[9..] == TERMINATOR;
    HexFormatValue(addr, 8);
  }

  // ---------------------------------------------------------------------------------------
  // ISO-8859-1

  /** String.getBytes("iso-8859-1"): characters outside the charset become '?'. */
  function Latin1(s: string): (r: seq<Byte>)
    ensures |r| == |s|
    ensures forall i :: 0 <= i < |s| ==> r[i] == (if s[i] as int < 256 then s[i] as int else '?' as int)
  {
    seq(|s|, i requires 0 <= i < |s| => if s[i] as int < 256 then s[i] as int else '?' as int)
  }

  /** new String(bytes, "iso-8859-1"): every byte is the character with that code. */
  function Latin1Decode(b: seq<Byte>): (r: string)
    ensures |r| == |b| && forall i :: 0 <= i < |b| ==> r[i] as int == b[i]
  {
    seq(|b|, i requires 0 <= i < |b| => b[i] as char)
  }

  lemma Latin1RoundTrip(b: seq<Byte>)
    ensures Latin1(Latin1Decode(b)) == b
  {
  }

  // ---------------------------------------------------------------------------------------
  // Words

  /** encodeInt: the four bytes of an int, least significant first. */
  function EncodeInt(value: Int32): (r: seq<Byte>)
    ensures |r| == 4
  {
    [ByteOf(value), ByteOf(UShr(value, 8)), ByteOf(UShr(value, 16)), ByteOf(UShr(value, 24))]
  }

  /**
   * The value readAnswerWord assembles, starting from the last byte: each step shifts the
   * accumulated int left by eight bits (wrapping) and ors in the next byte, which lands in the
   * byte the shift cleared and therefore adds.
   */
  function AnswerValue(ret: seq<Byte>): Int32
  {
    if |ret| == 0 then 0 else Wrap32(256 * AnswerValue(ret[1..]) + ret[0])
  }

  /** The shifted words encodeInt takes its bytes from, as quotients of the unsigned reading. */
  lemma ShiftedWords(v: Int32)
    ensures UShr(v, 8) == U32(v) / 256
    ensures UShr(v, 16) == U32(v) / 256 / 256
    ensures UShr(v, 24) == U32(v) / 256 / 256 / 256
  {
    var u := U32(v);
    assert Pow2(8) == 256;
    ShrDiv(u, 8);
    ShrAdd(u, 8, 8);
    ShrDiv(Shr(u, 8), 8);
    ShrAdd(u, 16, 8);
    ShrDiv(Shr(u, 16), 8);
  }

  /** encodeInt is the four-byte little-endian encoding of the unsigned reading. */
  lemma EncodeIntLE(v: Int32)
    ensures EncodeInt(v) == EncodeLE(U32(v), 4)
  {
    var u := U32(v);
    LowByteU32(v);
    ShiftedWords(v);
    assert EncodeLE(u / 256 / 256 / 256, 1) == [u / 256 / 256 / 256 % 256];
    assert EncodeLE(u / 256 / 256, 2) == [u / 256 / 256 % 256] + EncodeLE(u / 256 / 256 / 256, 1);
    assert EncodeLE(u / 256, 3) == [u / 256 % 256] + EncodeLE(u / 256 / 256, 2);
    assert EncodeLE(u, 4) == [u % 256] + EncodeLE(u / 256, 3);
  }

  /** The assembled value is the little-endian number, wrapped to an int. */
  lemma {:induction false} AnswerValueLE(ret: seq<Byte>)
    ensures AnswerValue(ret) == Wrap32(DecodeLE(ret))
  {
    if |ret| > 0 {
      AnswerValueLE(ret[1..]);
      var d := DecodeLE(ret[1..]);
      ShiftInWrapped(Wrap32(d), d, ret[0] as int);
    }
  }

  /** Shifting in a byte after wrapping or before wrapping gives the same int. */
  lemma ShiftInWrapped(w: int, d: int, b: int)
    requires (w - d) % TWO_32 == 0
    ensures Wrap32(256 * w + b) == Wrap32(256 * d + b)
  {
    var k := (w - d) / TWO_32;
    assert w - d == TWO_32 * k;
    assert (256 * w + b) - (256 * d + b) == TWO_32 * (256 * k);
    Wrap32Congruent(256 * w + b, 256 * d + b);
  }

  /** encodeInt followed by readAnswerWord(4) gives back every int. */
  lemma EncodeIntAnswerRoundTrip(v: Int32)
    ensures AnswerValue(EncodeInt(v)) == v
  {
    EncodeIntLE(v);
    AnswerValueLE(EncodeInt(v));
    DecodeEncodeLE(U32(v), 4);
    assert Pow256(4) == TWO_32;
  }

  // ---------------------------------------------------------------------------------------
  // Reply shapes

  /** endsWithLinefeed: SAM-BA ends its lines with LF CR, so either the last-but-one byte is LF or the last is CR. */
  predicate EndsWithLinefeed(ret: seq<Byte>)
  {
    |ret| >= 2 && (ret[|ret| - 2] == 0x0A || ret[|ret| - 1] == 0x0D)
  }

  /** endsWithPrompt: the last byte is '>'. */
  predicate EndsWithPrompt(ret: seq<Byte>)
  {
    |ret| >= 1 && ret[|ret| - 1] == PROMPT_CHAR
  }

  // ---------------------------------------------------------------------------------------
  // Version string

  /** Characters String.trim removes: every code up to the space. */
  predicate IsTrimmed(c: char)
  {
    c as int <= 0x20
  }

  function TrimStart(s: string): (r: string)
    ensures |r| <= |s| && (|r| > 0 ==> !IsTrimmed(r[0]))
    ensures r == s[|s| - |r|..]
  {
    if |s| > 0 && IsTrimmed(s[0]) then TrimStart(s[1..]) else s
  }

  function TrimEnd(s: string): (r: string)
    ensures |r| <= |s| && (|r| > 0 ==> !IsTrimmed(r[|r| - 1]))
    ensures r == s[..|r|]
  {
    if |s| > 0 && IsTrimmed(s[|s| - 1]) then TrimEnd(s[..|s| - 1]) else s
  }

  /** String.trim */
  function Trim(s: string): string
  {
    TrimEnd(TrimStart(s))
  }

  /** The space character that separates the version word from the rest of the reply. */
  const SPACE: char := ' '

  /** The regular-expression class \s: space, tab, LF, VT, FF, CR. */
  predicate IsRegexSpace(c: char)
  {
    c == SPACE || c == '\t' || c == '\n' || c == '\U{000B}' || c == '\U{000C}' || c == '\r'
  }

  /** NEXT LINE, U+0085: a line terminator for '.', but not whitespace for \s. */
  const NEL: char := '\U{0085}'

  /** The characters the regular-expression '.' does not match. */
  predicate IsLineTerminator(c: char)
  {
    c == '\n' || c == '\r' || c == NEL || c == '\U{2028}' || c == '\U{2029}'
  }

  /** What `.*` leaves of s: everything from the first line terminator on. */
  function SkipToLineEnd(s: string): (r: string)
    ensures |r| <= |s| && (|r| > 0 ==> IsLineTerminator(r[0]))
  {
    if |s| > 0 && !IsLineTerminator(s[0]) then SkipToLineEnd(s[1..]) else s
  }

  /** replaceAll("\\s.*", ""): every match, a whitespace character and the rest of its line, is removed. */
  function DropSpaceRuns(s: string): string
    decreases |s|
  {
    if |s| == 0 then []
    else if IsRegexSpace(s[0]) then DropSpaceRuns(SkipToLineEnd(s[1..]))
    else [s[0]] + DropSpaceRuns(s[1..])
  }

  /** The version as written: the trimmed line with each whitespace-to-end-of-line run removed. */
  function VersionAsWritten(line: string): string
  {
    DropSpaceRuns(Trim(line))
  }

  /** The text before the first whitespace character. */
  function FirstWord(s: string): (r: string)
    ensures |r| <= |s| && r == s[..|r|]
    ensures forall i :: 0 <= i < |r| ==> !IsRegexSpace(r[i])
    ensures |r| < |s| ==> IsRegexSpace(s[|r|])
  {
    if |s| == 0 || IsRegexSpace(s[0]) then [] else [s[0]] + FirstWord(s[1..])
  }

  /** The version, as intended: the trimmed line up to its first whitespace character. */
  function Version(line: string): string
  {
    FirstWord(Trim(line))
  }

  predicate NoUnicodeTerminators(s: string)
  {
    forall i :: 0 <= i < |s| ==> s[i] != '\U{0085}' && s[i] != '\U{2028}' && s[i] != '\U{2029}'
  }

  lemma {:induction false} DropAfterSpace(s: string)
    requires NoUnicodeTerminators(s)
    requires |s| > 0 && IsRegexSpace(s[0])
    ensures DropSpaceRuns(s) == []
    decreases |s|
  {
    var t := SkipToLineEnd(s[1..]);
    assert NoUnicodeTerminators(t) by {
      assert t == s[|s| - |t|..] by { SkipIsSuffix(s[1..]); }
    }
    if |t| > 0 {
      DropAfterSpace(t);
    }
  }

  lemma {:induction false} SkipIsSuffix(s: string)
    ensures SkipToLineEnd(s) == s[|s| - |SkipToLineEnd(s)|..]
  {
    if |s| > 0 && !IsLineTerminator(s[0]) {
      SkipIsSuffix(s[1..]);
      assert s[1..][|s| - 1 - |SkipToLineEnd(s)|..] == s[|s| - |SkipToLineEnd(s)|..];
    }
  }

  /** Without the Unicode line terminators the regular expression removes exactly everything from the first whitespace on. */
  lemma {:induction false} DropSpaceRunsIsFirstWord(s: string)
    requires NoUnicodeTerminators(s)
    ensures DropSpaceRuns(s) == FirstWord(s)
  {
    if |s| > 0 {
      if IsRegexSpace(s[0]) {
        DropAfterSpace(s);
      } else {
        assert NoUnicodeTerminators(s[1..]) by {
          assert forall i :: 0 <= i < |s| - 1 ==> s[1..][i] == s[i + 1];
        }
        DropSpaceRunsIsFirstWord(s[1..]);
      }
    }
  }

  /**
   * A NEL character (byte 0x85 of the reply) stops the removal: after a word, a space and text
   * without line terminators, everything from the NEL on survives, where the intended version
   * is the word alone.
   */
  lemma VersionKeepsTextAfterNel(w: string, x: string, y: string)
    requires forall i :: 0 <= i < |w| ==> !IsRegexSpace(w[i])
    requires forall i :: 0 <= i < |x| ==> !IsLineTerminator(x[i])
    ensures DropSpaceRuns(w + [SPACE] + x + [NEL] + y) == w + [NEL] + DropSpaceRuns(y)
    ensures FirstWord(w + [SPACE] + x + [NEL] + y) == w
  {
    var tail := x + ([NEL] + y);
    var reply := [SPACE] + tail;
    assert w + [SPACE] + x + [NEL] + y == w + reply;
    FirstWordPrefix(w, reply);
    calc {
      DropSpaceRuns(w + reply);
    == { DropWordPrefix(w, reply); }
      w + DropSpaceRuns(reply);
    == { DropSpace(SPACE, tail); }
      w + DropSpaceRuns(SkipToLineEnd(tail));
    == { SkipText(x, [NEL] + y); SkipStops(NEL, y); }
      w + DropSpaceRuns([NEL] + y);
    == { DropKeeps(NEL, y); }
      w + ([NEL] + DropSpaceRuns(y));
    }
  }

  /** A word without whitespace passes through the removal unchanged. */
  lemma {:induction false} DropWordPrefix(w: string, t: string)
    requires forall i :: 0 <= i < |w| ==> !IsRegexSpace(w[i])
    ensures DropSpaceRuns(w + t) == w + DropSpaceRuns(t)
    decreases |w|
  {
    if |w| > 0 {
      assert w + t == [w[0]] + (w[1..] + t);
      DropKeeps(w[0], w[1..] + t);
      DropWordPrefix(w[1..], t);
      assert [w[0]] + (w[1..] + DropSpaceRuns(t)) == w + DropSpaceRuns(t);
    } else {
      assert w + t == t;
    }
  }

  /** The first word of a whitespace-free word followed by whitespace is that word. */
  lemma {:induction false} FirstWordPrefix(w: string, t: string)
    requires forall i :: 0 <= i < |w| ==> !IsRegexSpace(w[i])
    requires |t| > 0 && IsRegexSpace(t[0])
    ensures FirstWord(w + t) == w
    decreases |w|
  {
    if |w| > 0 {
      assert (w + t)[1..] == w[1..] + t;
      FirstWordPrefix(w[1..], t);
      assert [w[0]] + w[1..] == w;
    } else {
      assert w + t == t;
    }
  }

  /** `.*` runs over text without line terminators. */
  lemma {:induction false} SkipText(x: string, t: string)
    requires forall i :: 0 <= i < |x| ==> !IsLineTerminator(x[i])
    ensures SkipToLineEnd(x + t) == SkipToLineEnd(t)
    decreases |x|
  {
    if |x| > 0 {
      assert x + t == [x[0]] + (x[1..] + t);
      SkipPast(x[0], x[1..] + t);
      SkipText(x[1..], t);
    } else {
      assert x + t == t;
    }
  }

  lemma SkipPast(c: char, t: string)
    requires !IsLineTerminator(c)
    ensures SkipToLineEnd([c] + t) == SkipToLineEnd(t)
  {
    assert ([c] + t)[1..] == t;
  }

  lemma SkipStops(c: char, t: string)
    requires IsLineTerminator(c)
    ensures SkipToLineEnd([c] + t) == [c] + t
  {
  }

  lemma DropKeeps(c: char, t: string)
    requires !IsRegexSpace(c)
    ensures DropSpaceRuns([c] + t) == [c] + DropSpaceRuns(t)
  {
    assert ([c] + t)[1..] == t;
  }

  lemma DropSpace(c: char, t: string)
    requires IsRegexSpace(c)
    ensures DropSpaceRuns([c] + t) == DropSpaceRuns(SkipToLineEnd(t))
  {
    assert ([c] + t)[1..] == t;
  }

  // ---------------------------------------------------------------------------------------
  // Flash pages

  /** The helper packet of writePage: the page number little-endian, the data, zeros up to 260 bytes. */
  function PagePacket(page: Int32, payload: seq<Byte>): (r: seq<Byte>)
    requires |payload| <= PAGE_SIZE
    ensures |r| == HELPER_PACKET
  {
    EncodeInt(page) + payload + seq(PAGE_SIZE - |payload|, _ => 0)
  }

  /** The packet layout the helper routine reads back. */
  lemma PagePacketLayout(page: Int32, payload: seq<Byte>)
    requires |payload| <= PAGE_SIZE && 0 <= page
    ensures var pkt := PagePacket(page, payload);
            DecodeLE(pkt[..4]) == page
            && pkt[4..4 + |payload|] == payload
            && forall i :: 4 + |payload| <= i < HELPER_PACKET ==> pkt[i] == 0
  {
    var pkt := PagePacket(page, payload);
    assert pkt[..4] == EncodeInt(page);
    EncodeIntLE(page);
    DecodeEncodeLE(U32(page), 4);
    assert Pow256(4) == TWO_32;
  }

  /** The lock-region command word: key 0x5A, region number from bit 14, command 2 (lock) or 4 (unlock). */
  function LockCommand(rgn: Int32, lock: bool): Int32
  {
    var bits: bv32 := 0x5A00_0000 | ((U32(rgn) as bv32) << 14) | (if lock then 2 else 4);
    Wrap32(bits as int)
  }

  /** For the regions of the NXT flash the command fields do not overlap, so the word is their sum. */
  lemma LockCommandFields(rgn: Int32, lock: bool)
    requires 0 <= rgn < 16
    ensures LockCommand(rgn, lock) == 0x5A00_0000 + rgn * 0x4000 + (if lock then 2 else 4)
  {
    var c: bv32 := if lock then 2 else 4;
    assert U32(rgn) == rgn;
    LockBits(U32(rgn), c);
    Wrap32Idempotent(0x5A00_0000 + rgn * 0x4000 + (if lock then 2 else 4));
  }

  lemma LockBits(r: nat, c: bv32)
    requires r < 16 && (c == 2 || c == 4)
    ensures (0x5A00_0000 | ((r as bv32) << 14) | c) as int == 0x5A00_0000 + r * 0x4000 + (c as int)
  {
    var b := r as bv32;
    assert b as int == r;
    assert b < 16;
    LockBitsBv(b, c);
  }

  lemma LockBitsBv(b: bv32, c: bv32)
    requires b < 16 && (c == 2 || c == 4)
    ensures (0x5A00_0000 | (b << 14) | c) as int == 0x5A00_0000 + (b as int) * 0x4000 + (c as int)
  {
  }

  /** One page write of writePages: the page, the offset into the data and the bytes still to write. */
  datatype PageWrite = PageWrite(page: int, offset: int, remaining: int)

  /** The loop of writePages: one page write per 256 bytes, each getting the rest of the data. */
  function WritePlan(first: int, offset: int, len: int): (r: seq<PageWrite>)
    decreases len
  {
    if len <= 0 then [] else [PageWrite(first, offset, len)] + WritePlan(first + 1, offset + PAGE_SIZE, len - PAGE_SIZE)
  }

  /** How many bytes a page write of writePage actually copies: the rest, clamped to a page. */
  function PageBytes(w: PageWrite): int
  {
    PageCopy(w.remaining)
  }

  /** `len` clamped to one page. */
  function PageCopy(len: int): int
  {
    if len > PAGE_SIZE then PAGE_SIZE else len
  }

  /** The plan covers ceil(len/256) consecutive pages, 256 bytes apart in the data, and its page sizes add up to len. */
  lemma {:induction false} WritePlanShape(first: int, offset: int, len: int)
    requires len > 0
    ensures var plan := WritePlan(first, offset, len);
            |plan| == (len + PAGE_SIZE - 1) / PAGE_SIZE
            && (forall i :: 0 <= i < |plan| ==> plan[i] == PageWrite(first + i, offset + PAGE_SIZE * i, len - PAGE_SIZE * i))
            && (forall i :: 0 <= i < |plan| - 1 ==> PageBytes(plan[i]) == PAGE_SIZE)
            && 0 < PageBytes(plan[|plan| - 1]) <= PAGE_SIZE
            && PAGE_SIZE * (|plan| - 1) + PageBytes(plan[|plan| - 1]) == len
    decreases len
  {
    var plan := WritePlan(first, offset, len);
    if len > PAGE_SIZE {
      WritePlanShape(first + 1, offset + PAGE_SIZE, len - PAGE_SIZE);
      var rest := WritePlan(first + 1, offset + PAGE_SIZE, len - PAGE_SIZE);
      assert plan == [PageWrite(first, offset, len)] + rest;
      forall i | 0 <= i < |plan|
        ensures plan[i] == PageWrite(first + i, offset + PAGE_SIZE * i, len - PAGE_SIZE * i)
      {
        if i > 0 {
          assert plan[i] == rest[i - 1];
        }
      }
    } else {
      assert WritePlan(first + 1, offset + PAGE_SIZE, len - PAGE_SIZE) == [];
      assert plan == [PageWrite(first, offset, len)];
    }
  }

  /** 600 bytes from page 10: pages 10, 11 and 12, the last carrying 88 bytes. */
  lemma WritePlanExample()
    ensures var plan := WritePlan(10, 0, 600);
            |plan| == 3 && plan[0].page == 10 && plan[1].page == 11 && plan[2].page == 12
            && PageBytes(plan[0]) == 256 && PageBytes(plan[1]) == 256 && PageBytes(plan[2]) == 88
  {
    WritePlanShape(10, 0, 600);
  }

  /** The loop of readPages: pages first, first+1, ... read into consecutive 256-byte slots while the slot starts inside the range. */
  function ReadPlan(page: int, offset: int, end: int): (r: seq<(int, int)>)
    decreases end - offset
  {
    if offset < end then [(page, offset)] + ReadPlan(page + 1, offset + PAGE_SIZE, end) else []
  }

  lemma {:induction false} ReadPlanShape(page: int, offset: int, end: int)
    ensures var plan := ReadPlan(page, offset, end);
            (offset < end ==> |plan| == (end - offset + PAGE_SIZE - 1) / PAGE_SIZE)
            && (offset >= end ==> plan == [])
            && forall i :: 0 <= i < |plan| ==> plan[i] == (page + i, offset + PAGE_SIZE * i)
    decreases end - offset
  {
    var plan := ReadPlan(page, offset, end);
    if offset < end {
      ReadPlanShape(page + 1, offset + PAGE_SIZE, end);
      var rest := ReadPlan(page + 1, offset + PAGE_SIZE, end);
      forall i | 0 <= i < |plan|
        ensures plan[i] == (page + i, offset + PAGE_SIZE * i)
      {
        if i > 0 {
          assert plan[i] == rest[i - 1];
        }
      }
    }
  }

  /**
   * The flash address readPage reads from. Java computes FLASH_BASE + page * PAGE_SIZE in int
   * arithmetic; one wrap of the exact value gives the same int (PageAddressJava).
   */
  function PageAddress(page: int): Int32
  {
    Wrap32(FLASH_BASE + page * PAGE_SIZE)
  }

  /** Wrapping the product first, or the page counter itself, does not change the address. */
  lemma PageAddressJava(page: int)
    ensures PageAddress(page) == Wrap32(FLASH_BASE + Wrap32(Wrap32(page) * PAGE_SIZE))
  {
    var w := Wrap32(page);
    Wrap32Congruent(w, page);
    assert (w * PAGE_SIZE - page * PAGE_SIZE) == (w - page) * PAGE_SIZE;
    Wrap32Congruent(w * PAGE_SIZE, page * PAGE_SIZE);
    var m := Wrap32(w * PAGE_SIZE);
    Wrap32Congruent(m, page * PAGE_SIZE);
    Wrap32Congruent(FLASH_BASE + m, FLASH_BASE + page * PAGE_SIZE);
  }

  lemma PageAddressInFlash(page: int)
    requires 0 <= page < PAGE_MAX
    ensures FLASH_BASE <= PageAddress(page) && PageAddress(page) + PAGE_SIZE <= FLASH_MAX
  {
    Wrap32Idempotent(FLASH_BASE + page * PAGE_SIZE);
  }
}
