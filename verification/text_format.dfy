/** The text form of a signature: `CreateModuleSignature` prints each
    entry as its low byte then its high byte, two lower-case hex digits
    each, with no separators; `-sig` reads such text back into the
    32-byte buffer `sig[16]` and keeps one entry per two bytes. */
module TextFormat {
  import opened Words

  datatype Option<T> = None | Some(value: T)

  /** Size in bytes of the buffer the text is decoded into. */
  const SIG_BYTES: nat := 2 * MAX_ENTRIES

  /** `%x` of one nibble. */
  function HexDigit(d: nat): (ch: char)
    requires d < 16
    ensures DigitValue(ch) == Some(d)
  {
    if d < 10 then ('0' as int + d) as char else ('a' as int + d - 10) as char
  }

  /** The value of a hex digit in either case; `None` for any other
      character. */
  function DigitValue(ch: char): (v: Option<nat>)
    ensures v.Some? ==> v.value < 16
  {
    if '0' <= ch <= '9' then Some(ch as int - '0' as int)
    else if 'a' <= ch <= 'f' then Some(ch as int - 'a' as int + 10)
    else if 'A' <= ch <= 'F' then Some(ch as int - 'A' as int + 10)
    else None
  }

  /** A lower-case hex digit, as `%x` prints it. */
  predicate IsLowerHex(ch: char)
  {
    '0' <= ch <= '9' || 'a' <= ch <= 'f'
  }

  /** `%02x` of one byte. */
  function HexByte(b: u8): (t: string)
    ensures |t| == 2 && IsLowerHex(t[0]) && IsLowerHex(t[1])
    ensures DigitValue(t[0]) == Some(b / 16) && DigitValue(t[1]) == Some(b % 16)
  {
    [HexDigit(b / 16), HexDigit(b % 16)]
  }

  /** Bytes printed back to back with `%02x`. */
  function HexText(bytes: seq<u8>): (t: string)
    ensures |t| == 2 * |bytes|
  {
    if bytes == [] then "" else HexByte(bytes[0]) + HexText(bytes[1..])
  }

  /** Hex text read two digits to a byte, in either case. Text of odd
      length or holding a non-hex character is rejected. */
  function ParseHex(t: string): (r: Option<seq<u8>>)
    ensures r.Some? ==> |t| == 2 * |r.value|
  {
    if t == [] then Some([])
    else if |t| == 1 then None
    else
      match (DigitValue(t[0]), DigitValue(t[1]), ParseHex(t[2..]))
      case (Some(hi), Some(lo), Some(rest)) => Some([hi * 16 + lo] + rest)
      case _ => None
  }

  /** The bytes of the entries in memory order: each entry as its low
      byte `c & 0xff` then its high byte `(c >> 8) & 0xff`. */
  function EntryBytes(sig: seq<u16>): (bytes: seq<u8>)
    ensures |bytes| == 2 * |sig|
  {
    if sig == [] then [] else [sig[0] % 256, sig[0] / 256] + EntryBytes(sig[1..])
  }

  /** The 16-bit value with low byte `lo` and high byte `hi`. */
  function Le16(lo: u8, hi: u8): (v: u16)
    ensures v % 256 == lo && v / 256 == hi
  {
    lo + 256 * hi
  }

  /** The little-endian 16-bit values of consecutive byte pairs; a final
      odd byte is dropped, as `*csig /= sizeof(uint16_t)` drops it. */
  function Pairs(bytes: seq<u8>): (sig: seq<u16>)
    ensures |sig| == |bytes| / 2
  {
    if |bytes| < 2 then [] else [Le16(bytes[0], bytes[1])] + Pairs(bytes[2..])
  }

  /** The text `CreateModuleSignature` prints for a signature. */
  function SignatureText(sig: seq<u16>): (t: string)
    ensures |t| == 4 * |sig|
  {
    HexText(EntryBytes(sig))
  }

  /** The entries `-sig <text>` loads: none when the text does not decode
      or decodes to more than the 32-byte buffer holds, otherwise one
      entry per two bytes. */
  function DecodeSignature(t: string): (sig: seq<u16>)
    ensures |sig| <= MAX_ENTRIES
  {
    match ParseHex(t)
    case None => []
    case Some(bytes) => if |bytes| > SIG_BYTES then [] else Pairs(bytes)
  }

  /** Every character of `t` is a hex digit, in either case. */
  predicate AllHex(t: string)
  {
    forall i :: 0 <= i < |t| ==> DigitValue(t[i]).Some?
  }

  /** The byte two hex digits stand for, the first one high. */
  function DigitPair(hi: char, lo: char): (b: u8)
    requires DigitValue(hi).Some? && DigitValue(lo).Some?
    ensures b / 16 == DigitValue(hi).value && b % 16 == DigitValue(lo).value
  {
    DigitValue(hi).value * 16 + DigitValue(lo).value
  }

  /** Text of odd length, or holding a character that is not a hex
      digit, does not decode. */
  lemma {:induction false} ParseHexRejects(t: string)
    requires |t| % 2 == 1 || !AllHex(t)
    ensures ParseHex(t) == None
  {
    if |t| >= 2 && DigitValue(t[0]).Some? && DigitValue(t[1]).Some? {
      if !AllHex(t) {
        var i :| 0 <= i < |t| && DigitValue(t[i]).None?;
        assert t[2..][i - 2] == t[i];
      }
      ParseHexRejects(t[2..]);
    }
  }

  /** Text of even length made of hex digits decodes to one byte per two
      digits, the first digit of each pair the high nibble. */
  lemma {:induction false} ParseHexAccepts(t: string)
    requires |t| % 2 == 0 && AllHex(t)
    ensures ParseHex(t).Some?
    ensures forall i :: 0 <= i < |t| / 2 ==> ParseHex(t).value[i] == DigitPair(t[2 * i], t[2 * i + 1])
  {
    if t != [] {
      assert AllHex(t[2..]) by {
        forall i | 0 <= i < |t[2..]|
          ensures DigitValue(t[2..][i]).Some?
        {
          assert t[2..][i] == t[i + 2];
        }
      }
      ParseHexAccepts(t[2..]);
      var rest := ParseHex(t[2..]).value;
      assert ParseHex(t).value == [DigitPair(t[0], t[1])] + rest;
      forall i | 1 <= i < |t| / 2
        ensures ParseHex(t).value[i] == DigitPair(t[2 * i], t[2 * i + 1])
      {
        assert t[2..][2 * (i - 1)] == t[2 * i] && t[2..][2 * (i - 1) + 1] == t[2 * i + 1];
      }
    }
  }

  /** Entry `j` of the pairs is bytes `2j` (low) and `2j + 1` (high). */
  lemma {:induction false} PairsValues(bytes: seq<u8>)
    ensures forall j :: 0 <= j < |bytes| / 2 ==> Pairs(bytes)[j] == Le16(bytes[2 * j], bytes[2 * j + 1])
  {
    if |bytes| >= 2 {
      PairsValues(bytes[2..]);
      forall j | 1 <= j < |bytes| / 2
        ensures Pairs(bytes)[j] == Le16(bytes[2 * j], bytes[2 * j + 1])
      {
        assert Pairs(bytes)[j] == Pairs(bytes[2..])[j - 1];
        assert bytes[2..][2 * (j - 1)] == bytes[2 * j] && bytes[2..][2 * (j - 1) + 1] == bytes[2 * j + 1];
      }
    }
  }

  /** `-sig` loads nothing from text of odd length or holding a
      character that is not a hex digit. */
  lemma DecodeRejectsMalformed(t: string)
    requires |t| % 2 == 1 || !AllHex(t)
    ensures DecodeSignature(t) == []
  {
    ParseHexRejects(t);
  }

  /** `-sig` on hex text: nothing when it holds more than 32 bytes;
      otherwise one entry per four digits (a trailing byte is dropped),
      entry `j` having low byte digits `4j, 4j + 1` and high byte digits
      `4j + 2, 4j + 3`. */
  lemma DecodeWellFormed(t: string)
    requires |t| % 2 == 0 && AllHex(t)
    ensures |t| > 2 * SIG_BYTES ==> DecodeSignature(t) == []
    ensures |t| <= 2 * SIG_BYTES ==> |DecodeSignature(t)| == |t| / 4
    ensures |t| <= 2 * SIG_BYTES ==>
              forall j :: 0 <= j < |t| / 4 ==>
                DecodeSignature(t)[j]
                == Le16(DigitPair(t[4 * j], t[4 * j + 1]), DigitPair(t[4 * j + 2], t[4 * j + 3]))
  {
    ParseHexAccepts(t);
    var bytes := ParseHex(t).value;
    PairsValues(bytes);
    if |t| <= 2 * SIG_BYTES {
      forall j | 0 <= j < |t| / 4
        ensures DecodeSignature(t)[j]
                == Le16(DigitPair(t[4 * j], t[4 * j + 1]), DigitPair(t[4 * j + 2], t[4 * j + 3]))
      {
        assert bytes[2 * j] == DigitPair(t[2 * (2 * j)], t[2 * (2 * j) + 1]);
        assert bytes[2 * j + 1] == DigitPair(t[2 * (2 * j + 1)], t[2 * (2 * j + 1) + 1]);
      }
    }
  }

  /** Reading hex text back yields the bytes that were printed. */
  lemma {:induction false} ParseHexText(bytes: seq<u8>)
    ensures ParseHex(HexText(bytes)) == Some(bytes)
  {
    if bytes != [] {
      var t := HexText(bytes);
      assert t[2..] == HexText(bytes[1..]);
      ParseHexText(bytes[1..]);
      assert [bytes[0]] + bytes[1..] == bytes;
    }
  }

  /** Printing is compositional: the text of two byte strings one after
      the other is the text of the first followed by that of the second. */
  lemma {:induction false} HexTextAppend(a: seq<u8>, b: seq<u8>)
    ensures HexText(a + b) == HexText(a) + HexText(b)
  {
    if a != [] {
      assert (a + b)[0] == a[0];
      assert (a + b)[1..] == a[1..] + b;
      HexTextAppend(a[1..], b);
      assert HexText(a + b) == HexByte(a[0]) + (HexText(a[1..]) + HexText(b));
    } else {
      assert a + b == b;
    }
  }

  /** Conversely, lower-case hex text that parses is exactly the printed
      form of its bytes: the printer and the parser agree on every text
      the printer can produce. */
  lemma {:induction false} HexTextOfParse(t: string)
    requires forall i :: 0 <= i < |t| ==> IsLowerHex(t[i])
    requires ParseHex(t).Some?
    ensures HexText(ParseHex(t).value) == t
  {
    if t != [] {
      var bytes := ParseHex(t).value;
      HexTextOfParse(t[2..]);
      assert bytes[1..] == ParseHex(t[2..]).value;
      LowerDigitUnique(t[0], bytes[0] / 16);
      LowerDigitUnique(t[1], bytes[0] % 16);
      assert HexByte(bytes[0]) == t[..2];
      assert t == t[..2] + t[2..];
    }
  }

  /** A lower-case hex digit is the printed form of its value. */
  lemma LowerDigitUnique(ch: char, d: nat)
    requires IsLowerHex(ch) && DigitValue(ch) == Some(d)
    ensures d < 16 && HexDigit(d) == ch
  {
  }

  /** Splitting the bytes of the entries back into pairs gives the
      entries. */
  lemma {:induction false} PairsOfEntryBytes(sig: seq<u16>)
    ensures Pairs(EntryBytes(sig)) == sig
  {
    if sig != [] {
      var bytes := EntryBytes(sig);
      assert bytes[2..] == EntryBytes(sig[1..]);
      PairsOfEntryBytes(sig[1..]);
      assert [sig[0]] + sig[1..] == sig;
    }
  }

  /** Round trip of the interchange format: a signature of at most 16
      entries, printed and then passed to `-sig`, is loaded unchanged. */
  lemma SignatureTextRoundTrip(sig: seq<u16>)
    requires |sig| <= MAX_ENTRIES
    ensures DecodeSignature(SignatureText(sig)) == sig
  {
    ParseHexText(EntryBytes(sig));
    PairsOfEntryBytes(sig);
  }

  /** Text too long for the buffer loads no signature, even when every
      character is a valid hex digit. */
  lemma OverlongTextRejected(sig: seq<u16>)
    requires |sig| > MAX_ENTRIES
    ensures DecodeSignature(SignatureText(sig)) == []
  {
    ParseHexText(EntryBytes(sig));
  }

  /** Two bytes print as the two-byte text `t`. */
  lemma HexPair(x: u8, y: u8, t: string)
    requires t == HexByte(x) + HexByte(y)
    ensures HexText([x, y]) == t
  {
    assert [x, y][1..] == [y];
  }
}
