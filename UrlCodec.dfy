/**
 * java.net.URLEncoder.encode and java.net.URLDecoder.decode with the UTF-8
 * charset: the application/x-www-form-urlencoded serialisation that turns
 * an S3 object key into a stored-file id and back.
 *
 * A Dafny `char` is a Unicode scalar value, so a string here never holds a
 * lone surrogate; the encoder therefore works one character at a time,
 * which is what the JDK's run-at-a-time conversion amounts to for such
 * strings.
 */
module UrlCodec {
  import opened Common

  type Byte = b: int | 0 <= b < 256

  // ---------------------------------------------------------------------
  // UTF-8
  // ---------------------------------------------------------------------

  /** The UTF-8 bytes of one scalar value. */
  function Utf8Char(c: char): (r: seq<Byte>)
    ensures 1 <= |r| <= 4
  {
    var n := c as int;
    if n < 0x80 then [n]
    else if n < 0x800 then [0xC0 + n / 64, 0x80 + n % 64]
    else if n < 0x10000 then [0xE0 + n / 4096, 0x80 + (n / 64) % 64, 0x80 + n % 64]
    else [0xF0 + n / 262144, 0x80 + (n / 4096) % 64, 0x80 + (n / 64) % 64, 0x80 + n % 64]
  }

  /** String.getBytes(UTF_8) */
  function Utf8Encode(s: string): seq<Byte>
  {
    if s == [] then [] else Utf8Char(s[0]) + Utf8Encode(s[1..])
  }

  /** The length of the well-formed sequence a lead byte opens (0: the byte never leads one). */
  function SequenceLength(b: Byte): nat
  {
    if b < 0x80 then 1
    else if 0xC2 <= b <= 0xDF then 2
    else if 0xE0 <= b <= 0xEF then 3
    else if 0xF0 <= b <= 0xF4 then 4
    else 0
  }

  /**
   * The bytes the decoder reads on with after the lead byte: the ranges of
   * Table 3-7 of the Unicode Standard, except that after ED it takes every
   * continuation byte, so that an encoded surrogate (ED A0..BF 80..BF) is
   * read whole.
   */
  predicate SecondByteFits(lead: Byte, b: Byte)
  {
    if lead == 0xE0 then 0xA0 <= b <= 0xBF
    else if lead == 0xF0 then 0x90 <= b <= 0xBF
    else if lead == 0xF4 then 0x80 <= b <= 0x8F
    else 0x80 <= b <= 0xBF
  }

  predicate IsContinuation(b: Byte)
  {
    0x80 <= b <= 0xBF
  }

  /**
   * How many bytes from the start of `bytes` the decoder reads as one unit:
   * the whole sequence the first byte opens when it is complete, otherwise
   * its longest prefix that fits (at least the first byte).
   */
  function FittingPrefix(bytes: seq<Byte>): (k: nat)
    requires bytes != []
    ensures 1 <= k <= |bytes|
    ensures SequenceLength(bytes[0]) != 0 ==> k <= SequenceLength(bytes[0])
  {
    var n := SequenceLength(bytes[0]);
    if n <= 1 || |bytes| < 2 || !SecondByteFits(bytes[0], bytes[1]) then 1
    else if n == 2 || |bytes| < 3 || !IsContinuation(bytes[2]) then 2
    else if n == 3 || |bytes| < 4 || !IsContinuation(bytes[3]) then 3
    else 4
  }

  /**
   * The first byte opens a sequence that is complete and well formed: not
   * a surrogate code point (ED followed by A0..BF).
   */
  predicate WellFormedAtStart(bytes: seq<Byte>)
    requires bytes != []
  {
    && FittingPrefix(bytes) == SequenceLength(bytes[0])
    && !(bytes[0] == 0xED && bytes[1] >= 0xA0)
  }

  /** The scalar value of a well-formed sequence at the start of `bytes`. */
  function ScalarAtStart(bytes: seq<Byte>): (c: char)
    requires bytes != [] && WellFormedAtStart(bytes)
  {
    var n := SequenceLength(bytes[0]);
    if n == 1 then bytes[0] as char
    else if n == 2 then ((bytes[0] as int - 0xC0) * 64 + (bytes[1] as int - 0x80)) as char
    else if n == 3 then
      var v := (bytes[0] as int - 0xE0) * 4096 + (bytes[1] as int - 0x80) * 64 + (bytes[2] as int - 0x80);
      assert v <= 0xFFFF;
      assert bytes[0] == 0xED ==> v < 0xD800;
      assert bytes[0] != 0xED ==> v < 0xD000 || v >= 0xE000;
      v as char
    else
      var v := (bytes[0] as int - 0xF0) * 262144 + (bytes[1] as int - 0x80) * 4096 + (bytes[2] as int - 0x80) * 64
        + (bytes[3] as int - 0x80);
      assert v <= 0x10FFFF;
      v as char
  }

  /**
   * new String(bytes, UTF_8): every well-formed sequence becomes its
   * character; every other unit the decoder reads (a maximal ill-formed
   * subpart, or a whole encoded surrogate) becomes one U+FFFD.
   */
  function Utf8Decode(bytes: seq<Byte>): string
    decreases |bytes|
  {
    if bytes == [] then []
    else if WellFormedAtStart(bytes) then [ScalarAtStart(bytes)] + Utf8Decode(bytes[FittingPrefix(bytes)..])
    else ['\U{FFFD}'] + Utf8Decode(bytes[FittingPrefix(bytes)..])
  }

  /**
   * An encoded surrogate is one U+FFFD, whole, cut short by the end of the
   * input or by a byte that does not continue it; a lone lead byte is one
   * U+FFFD of its own.
   */
  lemma EncodedSurrogates()
    ensures Utf8Decode([0xED, 0xA0, 0x80]) == ['\U{FFFD}']
    ensures Utf8Decode([0xED, 0xA0]) == ['\U{FFFD}']
    ensures Utf8Decode([0xED, 0xBF, 0x41]) == ['\U{FFFD}', 'A']
    ensures Utf8Decode([0xED, 0x41]) == ['\U{FFFD}', 'A']
  {
    assert [0xED, 0xA0, 0x80][3..] == [];
    assert [0xED, 0xBF, 0x41][2..] == [0x41];
    assert [0x41][1..] == [];
    assert [0xED, 0x41][1..] == [0x41];
    assert [0xED, 0xA0][2..] == [];
  }

  /** The bytes of one character form one well-formed sequence that decodes back to it. */
  lemma Utf8CharDecodes(c: char, rest: seq<Byte>)
    ensures var bytes := Utf8Char(c) + rest;
      && WellFormedAtStart(bytes) && FittingPrefix(bytes) == |Utf8Char(c)| && ScalarAtStart(bytes) == c
  {
    var n := c as int;
    if n < 0x80 {
    } else if n < 0x800 {
      TwoByteChar(c, rest);
    } else if n < 0x10000 {
      ThreeByteChar(c, rest);
    } else {
      FourByteChar(c, rest);
    }
  }

  lemma TwoByteChar(c: char, rest: seq<Byte>)
    requires 0x80 <= c as int < 0x800
    ensures var bytes := Utf8Char(c) + rest;
      && WellFormedAtStart(bytes) && FittingPrefix(bytes) == 2 && ScalarAtStart(bytes) == c
  {
    var n := c as int;
    assert n == (n / 64) * 64 + n % 64;
  }

  lemma ThreeByteChar(c: char, rest: seq<Byte>)
    requires 0x800 <= c as int < 0x10000
    ensures var bytes := Utf8Char(c) + rest;
      && WellFormedAtStart(bytes) && FittingPrefix(bytes) == 3 && ScalarAtStart(bytes) == c
  {
    var n := c as int;
    var bytes := Utf8Char(c) + rest;
    var q := n / 64;
    assert n == q * 64 + n % 64;
    assert q == (q / 64) * 64 + q % 64;
    assert n / 4096 == q / 64;
    assert bytes[0] == 0xE0 ==> bytes[1] >= 0xA0;
    assert bytes[0] == 0xED ==> bytes[1] <= 0x9F;
  }

  lemma FourByteChar(c: char, rest: seq<Byte>)
    requires 0x10000 <= c as int
    ensures var bytes := Utf8Char(c) + rest;
      && WellFormedAtStart(bytes) && FittingPrefix(bytes) == 4 && ScalarAtStart(bytes) == c
  {
    var n := c as int;
    var bytes := Utf8Char(c) + rest;
    var q := n / 64;
    var p := q / 64;
    assert n == q * 64 + n % 64;
    assert q == p * 64 + q % 64;
    assert p == (p / 64) * 64 + p % 64;
    assert n / 4096 == p;
    assert n / 262144 == p / 64;
    assert bytes[0] == 0xF0 ==> bytes[1] >= 0x90;
    assert bytes[0] == 0xF4 ==> bytes[1] <= 0x8F;
  }

  /** Decoding the UTF-8 encoding of a string gives the string back. */
  lemma {:induction false} Utf8RoundTrip(s: string)
    ensures Utf8Decode(Utf8Encode(s)) == s
  {
    if s != [] {
      var bytes := Utf8Encode(s);
      Utf8CharDecodes(s[0], Utf8Encode(s[1..]));
      assert bytes[|Utf8Char(s[0])|..] == Utf8Encode(s[1..]);
      Utf8RoundTrip(s[1..]);
    }
  }

  lemma {:induction false} Utf8EncodeAppend(a: string, b: string)
    ensures Utf8Encode(a + b) == Utf8Encode(a) + Utf8Encode(b)
    decreases |a|
  {
    if a != [] {
      assert (a + b)[0] == a[0] && (a + b)[1..] == a[1..] + b;
      Utf8EncodeAppend(a[1..], b);
      assert Utf8Encode(a + b) == Utf8Char(a[0]) + Utf8Encode(a[1..] + b);
      assert (Utf8Char(a[0]) + Utf8Encode(a[1..])) + Utf8Encode(b) == Utf8Char(a[0]) + (Utf8Encode(a[1..]) + Utf8Encode(b));
    } else {
      assert a + b == b;
    }
  }

  // ---------------------------------------------------------------------
  // Percent escapes
  // ---------------------------------------------------------------------

  /** The characters URLEncoder leaves alone: a-z, A-Z, 0-9 and `.`, `-`, `*`, `_`. */
  predicate Unreserved(c: char)
  {
    || ('a' <= c <= 'z') || ('A' <= c <= 'Z') || ('0' <= c <= '9')
    || c == '.' || c == '-' || c == '*' || c == '_'
  }

  /** A character the encoder writes as percent escapes. */
  predicate NeedsEscape(c: char)
  {
    !Unreserved(c) && c != ' '
  }

  /** Character.forDigit(d, 16), upper-cased as URLEncoder does. */
  function HexDigit(d: nat): (c: char)
    requires d < 16
    ensures IsHexDigit(c) && HexValue(c) == d
  {
    if d < 10 then ('0' as int + d) as char else ('A' as int + d - 10) as char
  }

  predicate IsHexDigit(c: char)
  {
    ('0' <= c <= '9') || ('a' <= c <= 'f') || ('A' <= c <= 'F')
  }

  function HexValue(c: char): (d: nat)
    requires IsHexDigit(c)
    ensures d < 16
  {
    if '0' <= c <= '9' then c as int - '0' as int
    else if 'a' <= c <= 'f' then c as int - 'a' as int + 10
    else c as int - 'A' as int + 10
  }

  /** `%HH` for each byte, upper-case hex. */
  function Escapes(bytes: seq<Byte>): (r: string)
    ensures |r| == 3 * |bytes|
  {
    if bytes == [] then []
    else ['%', HexDigit(bytes[0] / 16), HexDigit(bytes[0] % 16)] + Escapes(bytes[1..])
  }

  /**
   * Integer.parseInt(s, i + 1, i + 3, 16) on the two characters after a `%`,
   * followed by URLDecoder's rejection of a negative value: a leading sign
   * is accepted, so `%+F` is byte 15 and `%-0` is byte 0, while `%-1` fails.
   */
  function ParseEscape(a: char, b: char): (r: Option<Byte>)
    ensures IsHexDigit(a) && IsHexDigit(b) ==> r == Some(HexValue(a) * 16 + HexValue(b))
    ensures r.Some? ==> IsHexDigit(b)
  {
    if a == '+' then (if IsHexDigit(b) then Some(HexValue(b)) else None)
    else if a == '-' then (if IsHexDigit(b) && HexValue(b) == 0 then Some(0) else None)
    else if IsHexDigit(a) && IsHexDigit(b) then Some(HexValue(a) * 16 + HexValue(b))
    else None
  }

  /**
   * The run of escapes starting at the `%` that opens `s`: the bytes and how
   * many characters they took, or None when an escape is malformed or a `%`
   * has fewer than two characters after it.
   */
  function EscapeRun(s: string): (r: Option<(seq<Byte>, nat)>)
    requires s != [] && s[0] == '%'
    ensures r.Some? ==> r.value.0 != [] && r.value.1 == 3 * |r.value.0| <= |s|
    ensures r.Some? ==> r.value.1 == |s| || s[r.value.1] != '%'
    decreases |s|
  {
    if |s| < 3 then None
    else match ParseEscape(s[1], s[2]) {
      case None => None
      case Some(b) =>
        if |s| > 3 && s[3] == '%' then
          match EscapeRun(s[3..]) {
            case None => None
            case Some((more, k)) => Some(([b] + more, 3 + k))
          }
        else Some(([b], 3))
    }
  }

  // ---------------------------------------------------------------------
  // Encoder and decoder
  // ---------------------------------------------------------------------

  /** URLEncoder.encode of one character. */
  function EncodeChar(c: char): string
  {
    if Unreserved(c) then [c]
    else if c == ' ' then ['+']
    else Escapes(Utf8Char(c))
  }

  /** URLEncoder.encode(s, UTF_8): getStoredFileId. */
  function Encode(s: string): (r: string)
    ensures forall i :: 0 <= i < |r| ==> Unreserved(r[i]) || r[i] == '+' || r[i] == '%' || IsHexDigit(r[i])
  {
    if s == [] then []
    else
      var head := EncodeChar(s[0]);
      assert forall i :: 0 <= i < |head| ==> Unreserved(head[i]) || head[i] == '+' || head[i] == '%' || IsHexDigit(head[i])
      by { EscapesAlphabet(Utf8Char(s[0])); }
      head + Encode(s[1..])
  }

  lemma {:induction false} EscapesAlphabet(bytes: seq<Byte>)
    ensures forall i :: 0 <= i < |Escapes(bytes)| ==> Escapes(bytes)[i] == '%' || IsHexDigit(Escapes(bytes)[i])
  {
    if bytes != [] {
      EscapesAlphabet(bytes[1..]);
    }
  }

  /**
   * URLDecoder.decode(s, UTF_8): getKey. `+` is a space; each run of
   * escapes is gathered into bytes and decoded as UTF-8; any other
   * character stands for itself. None is the IllegalArgumentException of a
   * malformed escape.
   */
  function Decode(s: string): (r: Option<string>)
    decreases |s|
  {
    if s == [] then Some([])
    else if s[0] == '+' then Prepend([' '], Decode(s[1..]))
    else if s[0] == '%' then
      match EscapeRun(s) {
        case None => None
        case Some((bytes, k)) => Prepend(Utf8Decode(bytes), Decode(s[k..]))
      }
    else Prepend([s[0]], Decode(s[1..]))
  }

  function Prepend(head: string, rest: Option<string>): Option<string>
  {
    if rest.None? then None else Some(head + rest.value)
  }

  // ---------------------------------------------------------------------
  // Round trip
  // ---------------------------------------------------------------------

  /** The first escape of `Escapes(bytes)` reads back as the first byte. */
  lemma EscapesHead(bytes: seq<Byte>, tail: string)
    requires bytes != []
    ensures var s := Escapes(bytes) + tail;
      && |s| >= 3 && s[0] == '%' && ParseEscape(s[1], s[2]) == Some(bytes[0])
      && s[3..] == Escapes(bytes[1..]) + tail
  {
    var b := bytes[0];
    var hi, lo := HexDigit(b / 16), HexDigit(b % 16);
    var first, rest := ['%', hi, lo], Escapes(bytes[1..]) + tail;
    assert Escapes(bytes) == first + Escapes(bytes[1..]);
    assert (first + Escapes(bytes[1..])) + tail == first + (Escapes(bytes[1..]) + tail);
    var s := first + rest;
    assert s[0] == '%' && s[1] == hi && s[2] == lo;
    assert s[3..] == rest;
    ByteEscapeParses(b);
  }

  /** The two hex digits written for a byte parse back to it. */
  lemma ByteEscapeParses(b: Byte)
    ensures ParseEscape(HexDigit(b / 16), HexDigit(b % 16)) == Some(b)
  {
    var hi, lo := HexDigit(b / 16), HexDigit(b % 16);
    assert HexValue(hi) * 16 + HexValue(lo) == b;
  }

  lemma {:induction false} EscapeRunOfEscapes(bytes: seq<Byte>, tail: string)
    requires bytes != []
    requires tail == [] || tail[0] != '%'
    ensures var s := Escapes(bytes) + tail;
      s[0] == '%' && EscapeRun(s) == Some((bytes, 3 * |bytes|))
    decreases |bytes|
  {
    var s := Escapes(bytes) + tail;
    EscapesHead(bytes, tail);
    var b := bytes[0];
    if |bytes| > 1 {
      EscapeRunOfEscapes(bytes[1..], tail);
      EscapesHead(bytes[1..], tail);
      assert [b] + bytes[1..] == bytes;
    } else {
      assert s[3..] == tail && [b] == bytes;
      assert !(|s| > 3 && s[3] == '%') by {
        if |s| > 3 {
          assert s[3] == tail[0];
        }
      }
    }
  }

  /** How many leading characters of `s` the encoder escapes. */
  function EscapedPrefix(s: string): (n: nat)
    ensures n <= |s|
    ensures forall i :: 0 <= i < n ==> NeedsEscape(s[i])
    ensures n < |s| ==> !NeedsEscape(s[n])
  {
    if s == [] || !NeedsEscape(s[0]) then 0 else 1 + EscapedPrefix(s[1..])
  }

  lemma {:induction false} EncodeAppend(a: string, b: string)
    ensures Encode(a + b) == Encode(a) + Encode(b)
    decreases |a|
  {
    if a != [] {
      assert (a + b)[0] == a[0] && (a + b)[1..] == a[1..] + b;
      EncodeAppend(a[1..], b);
      assert Encode(a + b) == EncodeChar(a[0]) + Encode(a[1..] + b);
      assert (EncodeChar(a[0]) + Encode(a[1..])) + Encode(b) == EncodeChar(a[0]) + (Encode(a[1..]) + Encode(b));
    } else {
      assert a + b == b;
    }
  }

  lemma {:induction false} EscapesAppend(a: seq<Byte>, b: seq<Byte>)
    ensures Escapes(a + b) == Escapes(a) + Escapes(b)
    decreases |a|
  {
    if a != [] {
      assert (a + b)[0] == a[0] && (a + b)[1..] == a[1..] + b;
      EscapesAppend(a[1..], b);
      assert Escapes(a + b) == ['%', HexDigit(a[0] / 16), HexDigit(a[0] % 16)] + Escapes(a[1..] + b);
      var e := ['%', HexDigit(a[0] / 16), HexDigit(a[0] % 16)];
      assert (e + Escapes(a[1..])) + Escapes(b) == e + (Escapes(a[1..]) + Escapes(b));
    } else {
      assert a + b == b;
    }
  }

  /** Characters that all need escaping encode to the escapes of their UTF-8 bytes. */
  lemma {:induction false} EncodeEscaped(s: string)
    requires forall i :: 0 <= i < |s| ==> NeedsEscape(s[i])
    ensures Encode(s) == Escapes(Utf8Encode(s))
  {
    if s != [] {
      EncodeEscaped(s[1..]);
      EscapesAppend(Utf8Char(s[0]), Utf8Encode(s[1..]));
    }
  }

  /** The encoding of a string that does not open with an escaped character does not open with `%`. */
  lemma EncodeStart(s: string)
    requires s == [] || !NeedsEscape(s[0])
    ensures Encode(s) == [] || Encode(s)[0] != '%'
  {
  }

  /**
   * A maximal run of characters that need escaping decodes, as one run of
   * escapes, back to those characters.
   */
  lemma DecodeEscapedRun(head: string, tail: string)
    requires head != [] && forall i :: 0 <= i < |head| ==> NeedsEscape(head[i])
    requires tail == [] || !NeedsEscape(tail[0])
    ensures Decode(Encode(head + tail)) == Prepend(head, Decode(Encode(tail)))
  {
    EncodeAppend(head, tail);
    EncodeEscaped(head);
    var bytes := Utf8Encode(head);
    assert bytes != [] by {
      assert head == [head[0]] + head[1..];
      Utf8EncodeAppend([head[0]], head[1..]);
    }
    EncodeStart(tail);
    EscapeRunOfEscapes(bytes, Encode(tail));
    var e := Encode(head + tail);
    assert e == Escapes(bytes) + Encode(tail);
    assert e[3 * |bytes|..] == Encode(tail);
    Utf8RoundTrip(head);
  }

  /** getKey(getStoredFileId(key)) == key: decoding the encoding of any key gives the key back. */
  lemma {:induction false} DecodeEncode(s: string)
    ensures Decode(Encode(s)) == Some(s)
    decreases |s|
  {
    if s == [] {
    } else if !NeedsEscape(s[0]) {
      var e := Encode(s);
      var c := if Unreserved(s[0]) then s[0] else '+';
      assert e == [c] + Encode(s[1..]);
      assert e[0] == c && e[1..] == Encode(s[1..]);
      DecodeEncode(s[1..]);
      if Unreserved(s[0]) {
        assert Decode(e) == Prepend([s[0]], Decode(e[1..]));
      } else {
        assert Decode(e) == Prepend([' '], Decode(e[1..]));
      }
      assert [s[0]] + s[1..] == s;
    } else {
      var n := EscapedPrefix(s);
      assert s == s[..n] + s[n..];
      DecodeEscapedRun(s[..n], s[n..]);
      DecodeEncode(s[n..]);
    }
  }

  /** Distinct keys get distinct stored-file ids. */
  lemma EncodeInjective(a: string, b: string)
    requires Encode(a) == Encode(b)
    ensures a == b
  {
    DecodeEncode(a);
    DecodeEncode(b);
  }

  /** A key made of unreserved characters is its own id. */
  lemma {:induction false} EncodeUnreserved(s: string)
    requires forall i :: 0 <= i < |s| ==> Unreserved(s[i])
    ensures Encode(s) == s
  {
    if s != [] {
      EncodeUnreserved(s[1..]);
      assert s == [s[0]] + s[1..];
    }
  }

  /** An escaped surrogate decodes to one U+FFFD, and the text after it is kept. */
  lemma DecodeEscapedSurrogate()
    ensures Decode("%ED%A0%80") == Some(['\U{FFFD}'])
    ensures Decode("%ED%A0A") == Some(['\U{FFFD}', 'A'])
  {
    var ed: Byte, a0: Byte, x80: Byte := 0xED, 0xA0, 0x80;
    assert ParseEscape('E', 'D') == Some(ed) && ParseEscape('A', '0') == Some(a0) && ParseEscape('8', '0') == Some(x80);
    assert EscapeRun("%80") == Some(([x80], 3));
    assert "%A0%80"[3..] == "%80" && "%ED%A0%80"[3..] == "%A0%80" && "%ED%A0A"[3..] == "%A0A";
    assert EscapeRun("%A0%80") == Some(([a0] + [x80], 6));
    assert EscapeRun("%ED%A0%80") == Some(([ed] + ([a0] + [x80]), 9));
    assert [ed] + ([a0] + [x80]) == [0xED, 0xA0, 0x80];
    assert "%ED%A0%80"[9..] == [];
    assert EscapeRun("%A0A") == Some(([a0], 3));
    assert EscapeRun("%ED%A0A") == Some(([ed] + [a0], 6));
    assert [ed] + [a0] == [0xED, 0xA0];
    assert "%ED%A0A"[6..] == "A" && "A"[1..] == [];
    EncodedSurrogates();
  }

  /** A `%` without two characters after it, or with a negative value, is rejected; a leading `+` sign is not. */
  lemma MalformedEscapes()
    ensures Decode("%").None? && Decode("%4").None? && Decode("%-1").None? && Decode("ab%4").None?
    ensures Decode("%+F") == Some(['\U{F}'])
  {
    assert Decode("ab%4") == Prepend("a", Prepend("b", Decode("%4")));
    assert ParseEscape('+', 'F') == Some(15);
    assert EscapeRun("%+F") == Some(([15], 3));
    assert Utf8Decode([15]) == ['\U{F}'];
    assert "%+F"[3..] == [];
  }
}
