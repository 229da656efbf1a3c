/**
 * The path decoder of src/fileinfo.rs with the hex-letter defect corrected:
 * each character of an escape is read as a hexadecimal digit (`0-9`, `a-f`,
 * `A-F`), anything else rejects the line, and no arithmetic can overflow.
 * Everything else is shared with the as-written codec.
 */
module CorrectedCodec {
  import opened Wrappers
  import opened Text
  import opened FileInfoCodec

  /** The value of one hexadecimal digit, or nothing for any other character. */
  function HexValue(ch: char): (r: Option<nat>)
    ensures r.Some? ==> r.value < 16
    ensures r.None? <==> !('0' <= ch <= '9' || 'a' <= ch <= 'f' || 'A' <= ch <= 'F')
  {
    if '0' <= ch <= '9' then Some(ch as int - '0' as int)
    else if 'a' <= ch <= 'f' then Some(ch as int - 'a' as int + 10)
    else if 'A' <= ch <= 'F' then Some(ch as int - 'A' as int + 10)
    else None
  }

  /** The code unit an escape denotes, read from the text after its `%`. */
  function ReadEscape(t: string): (r: Result<CodeUnit, DecodeError>)
    ensures r.Ok? ==> |t| >= 4
    ensures r != Err(ArithmeticPanic)
  {
    if |t| < 4 then Err(Malformed)
    else
      match (HexValue(t[0]), HexValue(t[1]), HexValue(t[2]), HexValue(t[3]))
      case (Some(n0), Some(n1), Some(n2), Some(n3)) => Ok(n0 * 0x1000 + n1 * 0x100 + n2 * 0x10 + n3)
      case _ => Err(Malformed)
  }

  /** The path field read back into code units. */
  function UnescapeFixed(s: string): Result<seq<CodeUnit>, DecodeError>
    decreases |s|
  {
    if s == [] then Ok([])
    else if s[0] == '%' then
      match ReadEscape(s[1..])
      case Err(e) => Err(e)
      case Ok(u) => Prepend([u], UnescapeFixed(s[5..]))
    else Prepend([s[0] as int % 0x1_0000], UnescapeFixed(s[1..]))
  }

  /** `FileInfo::try_from` with the corrected path decoder. */
  function DecodeFixed(line: string): Result<FileInfo, DecodeError> {
    if StartsWithMarker(line) then
      match Fields(line[1..])
      case Err(e) => Err(e)
      case Ok(f) =>
        match UnescapeFixed(f.path)
        case Err(e) => Err(e)
        case Ok(units) => Ok(FileInfo(units, f.hash, f.modified, f.size))
    else DecodeLegacy(line)
  }

  // ===========================================================================
  // Round trip
  // ===========================================================================

  lemma HexValueOfDigit(v: nat)
    requires v < 16
    ensures HexValue(HexDigit(v)) == Some(v)
  {
  }

  /** The four characters of `{:04x}` are read back as the unit they were written from. */
  lemma ReadEscapeOfHex(c: CodeUnit, rest: string)
    ensures ReadEscape(Hex4(c) + rest) == Ok(c)
  {
    var n := Nibbles(c);
    var t := Hex4(c) + rest;
    HexValueOfDigit(n[0]);
    HexValueOfDigit(n[1]);
    HexValueOfDigit(n[2]);
    HexValueOfDigit(n[3]);
    assert t[0] == HexDigit(n[0]) && t[1] == HexDigit(n[1]) && t[2] == HexDigit(n[2]) && t[3] == HexDigit(n[3]);
  }

  lemma UnescapeFixedUnit(c: CodeUnit, rest: string)
    ensures UnescapeFixed(EscapeUnit(c) + rest) == Prepend([c], UnescapeFixed(rest))
  {
    var s := EscapeUnit(c) + rest;
    if Literal(c) {
      assert s[0] as int == c && s[1..] == rest;
    } else {
      assert s[1..] == Hex4(c) + rest;
      ReadEscapeOfHex(c, rest);
      assert s[5..] == rest;
    }
  }

  /** The corrected decoder inverts the escape on every sequence of code units. */
  lemma {:induction false} UnescapeFixedEscape(units: seq<CodeUnit>)
    ensures UnescapeFixed(Escape(units)) == Ok(units)
    decreases |units|
  {
    if units != [] {
      UnescapeFixedUnit(units[0], Escape(units[1..]));
      UnescapeFixedEscape(units[1..]);
      assert [units[0]] + units[1..] == units;
    }
  }

  /** Every record whose hash survives its field is read back as written, whatever its path. */
  lemma DecodeFixedEncode(fi: FileInfo)
    requires HashSurvives(fi.hash)
    ensures DecodeFixed(Encode(fi)) == Ok(fi)
  {
    FieldsOfEncoded(fi);
    UnescapeFixedEscape(fi.path);
  }

  /** Two records with surviving hashes that are written as the same line are the same record. */
  lemma EncodeInjective(f: FileInfo, g: FileInfo)
    requires HashSurvives(f.hash) && HashSurvives(g.hash)
    ensures Encode(f) == Encode(g) ==> f == g
  {
    DecodeFixedEncode(f);
    DecodeFixedEncode(g);
  }

  /** Where the source's own decoder gets an encoded line right, the corrected one agrees with it. */
  lemma FixedAgreesOnDecimal(fi: FileInfo)
    requires HashSurvives(fi.hash) && DecimalEscapes(fi.path)
    ensures DecodeFixed(Encode(fi)) == Decode(Encode(fi))
  {
    DecodeFixedEncode(fi);
    DecodeEncode(fi);
  }

  /** The record that the source's decoder misreads is read back correctly. */
  lemma FixedReadsLetters(fi: FileInfo)
    requires fi.path == [0xE9] && HashSurvives(fi.hash)
    ensures Decode(Encode(fi)) != DecodeFixed(Encode(fi)) == Ok(fi)
  {
    AsWrittenMisreadsLetters(fi);
    DecodeFixedEncode(fi);
  }

  // ===========================================================================
  // No panic
  // ===========================================================================

  lemma {:induction false} UnescapeFixedNeverPanics(s: string)
    ensures UnescapeFixed(s) != Err(ArithmeticPanic)
    decreases |s|
  {
    if s != [] {
      if s[0] == '%' {
        if ReadEscape(s[1..]).Ok? {
          UnescapeFixedNeverPanics(s[5..]);
        }
      } else {
        UnescapeFixedNeverPanics(s[1..]);
      }
    }
  }

  /** The corrected decoder rejects bad input with an error on every line, never with a panic. */
  lemma DecodeFixedNeverPanics(line: string)
    ensures DecodeFixed(line) != Err(ArithmeticPanic)
  {
    if StartsWithMarker(line) && Fields(line[1..]).Ok? {
      UnescapeFixedNeverPanics(Fields(line[1..]).value.path);
    }
  }

  /** A path prefix the corrected decoder reads without error is read the same whatever follows it. */
  lemma {:induction false} UnescapeFixedConcat(p: string, x: string)
    requires UnescapeFixed(p).Ok?
    ensures UnescapeFixed(p + x) == Prepend(UnescapeFixed(p).value, UnescapeFixed(x))
    decreases |p|
  {
    if p == [] {
      assert p + x == x;
      if UnescapeFixed(x).Ok? {
        assert [] + UnescapeFixed(x).value == UnescapeFixed(x).value;
      }
    } else if p[0] == '%' {
      var u := ReadEscape(p[1..]).value;
      assert (p + x)[0] == '%';
      assert (p + x)[1..] == p[1..] + x;
      assert (p[1..] + x)[..4] == p[1..][..4];
      assert ReadEscape((p + x)[1..]) == ReadEscape(p[1..]);
      assert (p + x)[5..] == p[5..] + x;
      UnescapeFixedConcat(p[5..], x);
      PrependPrepend([u], UnescapeFixed(p[5..]).value, UnescapeFixed(x));
    } else {
      var u := p[0] as int % 0x1_0000;
      assert (p + x)[0] == p[0];
      assert (p + x)[1..] == p[1..] + x;
      UnescapeFixedConcat(p[1..], x);
      PrependPrepend([u], UnescapeFixed(p[1..]).value, UnescapeFixed(x));
    }
  }

  /** An escape with a character that is not a hex digit is rejected, wherever it starts. */
  lemma NonHexEscapeRejected(p: string, t: string, rest: string)
    requires UnescapeFixed(p).Ok?
    requires |t| == 4 && exists i :: 0 <= i < 4 && HexValue(t[i]).None?
    ensures UnescapeFixed(p + "%" + t + rest) == Err(Malformed)
  {
    var e := "%" + t + rest;
    assert p + "%" + t + rest == p + e;
    assert e[1..][..4] == t;
    UnescapeFixedConcat(p, e);
  }
}
