/**
 * The one-line file-record codec of src/fileinfo.rs, as written:
 *   `> <size> | <secs-or-None> | <hash-or-None> | <escaped path>`
 * for writing, and for reading that format or the legacy
 * `<size> bytes: [<hash> ]<path>`.
 */
module FileInfoCodec {
  import opened Wrappers
  import opened Text
  import LegacyLine

  /** A file record. The path is its UTF-16 code units, the modification time whole seconds since the Unix epoch. */
  datatype FileInfo = FileInfo(path: seq<CodeUnit>, hash: Option<string>, modified: Option<U64>, size: U64)

  /**
   * Why decoding gives no record: the decoder's `Err(())`, or the panic that
   * an overflowing `u8`/`u16` operation raises in a debug build.
   */
  datatype DecodeError = Malformed | ArithmeticPanic

  const FieldSep: string := " | "

  // ===========================================================================
  // Encoding (`impl fmt::Display for FileInfo`)
  // ===========================================================================

  /** A code unit written as itself: `0x20..=0x7F` except `%`. */
  predicate Literal(c: CodeUnit) {
    0x20 <= c <= 0x7F && c != 0x25
  }

  /** One lowercase hexadecimal digit. */
  function HexDigit(v: nat): (ch: char)
    requires v < 16
    ensures v < 10 ==> ch as int == '0' as int + v
    ensures v >= 10 ==> ch as int == 'a' as int + v - 10
  {
    if v < 10 then ('0' as int + v) as char else ('a' as int + v - 10) as char
  }

  /** The four nibbles of a code unit, most significant first. */
  function Nibbles(c: CodeUnit): (r: seq<nat>)
    ensures |r| == 4 && forall i :: 0 <= i < 4 ==> r[i] < 16
    ensures c == r[0] * 0x1000 + r[1] * 0x100 + r[2] * 0x10 + r[3]
  {
    var q1 := c / 16;
    var q2 := q1 / 16;
    var q3 := q2 / 16;
    assert c == q1 * 16 + c % 16;
    assert q1 == q2 * 16 + q1 % 16;
    assert q2 == q3 * 16 + q2 % 16;
    assert q3 < 16;
    [q3, q2 % 16, q1 % 16, c % 16]
  }

  /** `format!("{:04x}", c)`. */
  function Hex4(c: CodeUnit): (r: string)
    ensures |r| == 4
  {
    var n := Nibbles(c);
    [HexDigit(n[0]), HexDigit(n[1]), HexDigit(n[2]), HexDigit(n[3])]
  }

  lemma PercentHex()
    ensures Hex4(0x25) == "0025"
  {
    assert Nibbles(0x25) == [0, 0, 2, 5];
  }

  /** How one code unit of the path is written. */
  function EscapeUnit(c: CodeUnit): (r: string)
    ensures Literal(c) ==> |r| == 1 && r[0] as int == c
    ensures !Literal(c) ==> r == "%" + Hex4(c)
    ensures forall i :: 0 <= i < |r| ==> 0x20 <= r[i] as int <= 0x7F
  {
    if c == 0x25 then
      PercentHex();
      "%0025"
    else if 0x20 <= c <= 0x7F then [c as char]
    else "%" + Hex4(c)
  }

  /** How many code units are written as a five-character escape. */
  function EscapedCount(units: seq<CodeUnit>): nat {
    if units == [] then 0
    else (if Literal(units[0]) then 0 else 1) + EscapedCount(units[1..])
  }

  /** The escaped path: ASCII text from 0x20 to 0x7F, one or five characters per unit. */
  function Escape(units: seq<CodeUnit>): (r: string)
    ensures |r| == |units| + 4 * EscapedCount(units)
    ensures forall i :: 0 <= i < |r| ==> 0x20 <= r[i] as int <= 0x7F
  {
    if units == [] then []
    else EscapeUnit(units[0]) + Escape(units[1..])
  }

  function ModifiedField(modified: Option<U64>): string {
    match modified
    case Some(secs) => Dec(secs)
    case None => "None"
  }

  function HashField(hash: Option<string>): string {
    match hash
    case Some(h) => h
    case None => "None"
  }

  /** Everything `fmt` writes before the path. */
  function Header(fi: FileInfo): string {
    "> " + Dec(fi.size) + FieldSep + ModifiedField(fi.modified) + FieldSep + HashField(fi.hash) + FieldSep
  }

  /** The line `fmt` writes for a record. */
  function Encode(fi: FileInfo): string {
    Header(fi) + Escape(fi.path)
  }

  // ===========================================================================
  // Decoding (`impl TryFrom<&str> for FileInfo`)
  // ===========================================================================

  /** `c as u8 - b'0'`: the low byte of the character, less 48; below 48 the subtraction overflows. */
  function DigitAsWritten(ch: char): (r: Result<nat, DecodeError>)
    ensures r.Err? <==> ch as int % 0x100 < '0' as int
    ensures r.Err? ==> r.error == ArithmeticPanic
    ensures r.Ok? ==> r.value < 208
  {
    var b := ch as int % 0x100;
    if b < '0' as int then Err(ArithmeticPanic) else Ok(b - '0' as int)
  }

  /** The next `n` characters after a `%`, each read with `next().ok_or(())?` and converted. */
  function ReadDigits(t: string, n: nat): (r: Result<seq<nat>, DecodeError>)
    ensures r.Ok? ==> |t| >= n && |r.value| == n && forall i :: 0 <= i < n ==> r.value[i] < 208
  {
    if n == 0 then Ok([])
    else if t == [] then Err(Malformed)
    else
      match DigitAsWritten(t[0])
      case Err(e) => Err(e)
      case Ok(v) =>
        match ReadDigits(t[1..], n - 1)
        case Err(e) => Err(e)
        case Ok(vs) => Ok([v] + vs)
  }

  /**
   * `((n1 as u16) << 12) + ((n2 as u16) << 8) + ((n3 as u16) << 4) + (n4 as u16)`:
   * the shifts drop the bits beyond 16, the additions overflow-check.
   */
  function Combine(n: seq<nat>): Result<CodeUnit, DecodeError>
    requires |n| == 4
  {
    var a := n[0] * 0x1000 % 0x1_0000;
    var b := n[1] * 0x100 % 0x1_0000;
    var c := n[2] * 0x10 % 0x1_0000;
    var d := n[3] % 0x1_0000;
    if a + b >= 0x1_0000 || a + b + c >= 0x1_0000 || a + b + c + d >= 0x1_0000 then Err(ArithmeticPanic)
    else Ok(a + b + c + d)
  }

  /** The code unit an escape denotes, read from the text after its `%`. */
  function EscapeValue(t: string): (r: Result<CodeUnit, DecodeError>)
    ensures r.Ok? ==> |t| >= 4
  {
    match ReadDigits(t, 4)
    case Err(e) => Err(e)
    case Ok(n) => Combine(n)
  }

  function Prepend(prefix: seq<CodeUnit>, r: Result<seq<CodeUnit>, DecodeError>): Result<seq<CodeUnit>, DecodeError> {
    match r
    case Ok(units) => Ok(prefix + units)
    case Err(e) => Err(e)
  }

  /** The decoder's loop over the path field: `%` starts an escape, any other character is `c as u16`. */
  function Unescape(s: string): Result<seq<CodeUnit>, DecodeError>
    decreases |s|
  {
    if s == [] then Ok([])
    else if s[0] == '%' then
      match EscapeValue(s[1..])
      case Err(e) => Err(e)
      case Ok(u) => Prepend([u], Unescape(s[5..]))
    else Prepend([s[0] as int % 0x1_0000], Unescape(s[1..]))
  }

  /** The four fields of a current-format line, before the path is unescaped. */
  datatype RawFields = RawFields(size: U64, modified: Option<U64>, hash: Option<string>, path: string)

  /** The modification-time field: exactly `None`, or a trimmed `u64`. */
  function ParseModified(b: string): Option<Option<U64>> {
    if b == "None" then Some(None)
    else
      match ParseU64(Trim(b))
      case Some(secs) => Some(Some(secs))
      case None => None
  }

  /** The hash field: exactly `None`, or the text itself. */
  function ReadHash(c: string): Option<string> {
    if c == "None" then None else Some(c)
  }

  /** `splitn(4, " | ")` and the parsing of the first three fields. */
  function Fields(s: string): Result<RawFields, DecodeError> {
    match SplitOnce(s, FieldSep)
    case None => Err(Malformed)
    case Some((a, r1)) =>
      match SplitOnce(r1, FieldSep)
      case None => Err(Malformed)
      case Some((b, r2)) =>
        match SplitOnce(r2, FieldSep)
        case None => Err(Malformed)
        case Some((c, d)) =>
          match ParseU64(Trim(a))
          case None => Err(Malformed)
          case Some(size) =>
            match ParseModified(b)
            case None => Err(Malformed)
            case Some(modified) => Ok(RawFields(size, modified, ReadHash(c), d))
  }

  /** The current format, given the line without its leading `>`. */
  function DecodeCurrent(s: string): Result<FileInfo, DecodeError> {
    match Fields(s)
    case Err(e) => Err(e)
    case Ok(f) =>
      match Unescape(f.path)
      case Err(e) => Err(e)
      case Ok(units) => Ok(FileInfo(units, f.hash, f.modified, f.size))
  }

  /** The legacy format: `split_line`'s reading, with no modification time. */
  function DecodeLegacy(line: string): Result<FileInfo, DecodeError> {
    match LegacyLine.SplitLine(line)
    case None => Err(Malformed)
    case Some((path, e)) => Ok(FileInfo(Utf16(path), e.hash, None, e.size))
  }

  predicate StartsWithMarker(line: string) {
    |line| > 0 && line[0] == '>'
  }

  /** `FileInfo::try_from`: the first character chooses the format. */
  function Decode(line: string): Result<FileInfo, DecodeError> {
    if StartsWithMarker(line) then DecodeCurrent(line[1..]) else DecodeLegacy(line)
  }

  // ===========================================================================
  // The two loops, step by step
  // ===========================================================================

  lemma {:induction false} EscapeSnoc(units: seq<CodeUnit>, c: CodeUnit)
    ensures Escape(units + [c]) == Escape(units) + EscapeUnit(c)
  {
    if units == [] {
      assert units + [c] == [c];
    } else {
      assert (units + [c])[1..] == units[1..] + [c];
      EscapeSnoc(units[1..], c);
    }
  }

  /** Writing one more code unit after `done` appends its escape to what was written. */
  lemma WriteSnoc(written: string, done: seq<CodeUnit>, c: CodeUnit)
    ensures written + Escape(done + [c]) == (written + Escape(done)) + EscapeUnit(c)
  {
    EscapeSnoc(done, c);
  }

  lemma WriteStep(written: string, units: seq<CodeUnit>, i: nat)
    requires i < |units|
    ensures written + Escape(units[..i + 1]) == (written + Escape(units[..i])) + EscapeUnit(units[i])
  {
    assert units[..i + 1] == units[..i] + [units[i]];
    WriteSnoc(written, units[..i], units[i]);
  }

  /** `fmt`: the header fields, then the path one code unit at a time. */
  method Display(fi: FileInfo) returns (line: string)
    ensures line == Encode(fi)
  {
    line := "> " + Dec(fi.size);
    match fi.modified {
      case Some(secs) => line := line + FieldSep + Dec(secs);
      case None => line := line + FieldSep + "None";
    }
    match fi.hash {
      case Some(h) => line := line + FieldSep + h;
      case None => line := line + FieldSep + "None";
    }
    line := line + FieldSep;
    assert line == Header(fi);
    line := WritePath(line, fi.path);
  }

  /** The `for c in pathutf16` loop of `fmt`, appending to what is already written. */
  method WritePath(written: string, units: seq<CodeUnit>) returns (line: string)
    ensures line == written + Escape(units)
  {
    line := written;
    var i := 0;
    while i < |units|
      invariant 0 <= i <= |units|
      invariant line == written + Escape(units[..i])
    {
      var piece := EscapeUnit(units[i]);
      WriteStep(written, units, i);
      line := line + piece;
      i := i + 1;
    }
    assert units[..i] == units;
  }

  /** `try_from`: the first character chooses the format; a current-format line is split into fields and its path unescaped. */
  method TryFrom(line: string) returns (r: Result<FileInfo, DecodeError>)
    ensures r == Decode(line)
  {
    if !StartsWithMarker(line) {
      return DecodeLegacy(line);
    }
    var fields := Fields(line[1..]);
    if fields.Err? {
      return Err(fields.error);
    }
    var units := ReadPath(fields.value.path);
    if units.Err? {
      return Err(units.error);
    }
    r := Ok(FileInfo(units.value, fields.value.hash, fields.value.modified, fields.value.size));
  }

  lemma PrependPrepend(a: seq<CodeUnit>, b: seq<CodeUnit>, r: Result<seq<CodeUnit>, DecodeError>)
    ensures Prepend(a, Prepend(b, r)) == Prepend(a + b, r)
  {
    if r.Ok? {
      assert a + (b + r.value) == (a + b) + r.value;
    }
  }

  /** The `loop` of `try_from`: characters are pulled from an iterator and pushed into `buf`. */
  method ReadPath(path: string) returns (r: Result<seq<CodeUnit>, DecodeError>)
    ensures r == Unescape(path)
  {
    var buf: seq<CodeUnit> := [];
    var rest := path;
    assert Unescape(path).Ok? ==> [] + Unescape(path).value == Unescape(path).value;
    while rest != []
      invariant Unescape(path) == Prepend(buf, Unescape(rest))
      decreases |rest|
    {
      var c := rest[0];
      if c == '%' {
        var v := EscapeValue(rest[1..]);
        if v.Err? {
          return Err(v.error);
        }
        PrependPrepend(buf, [v.value], Unescape(rest[5..]));
        buf := buf + [v.value];
        rest := rest[5..];
      } else {
        PrependPrepend(buf, [c as int % 0x1_0000], Unescape(rest[1..]));
        buf := buf + [c as int % 0x1_0000];
        rest := rest[1..];
      }
    }
    assert buf + [] == buf;
    r := Ok(buf);
  }

  // ===========================================================================
  // What the as-written decoder makes of an escape
  // ===========================================================================

  /** What `c as u8 - b'0'` gives for the hex digit of value `v`: `v` for 0-9, `v + 39` for a-f. */
  function DigitReading(v: nat): nat {
    if v < 10 then v else v + 39
  }

  /** A code unit whose `{:04x}` form has only the digits 0-9. */
  predicate DecimalHex(c: CodeUnit) {
    var n := Nibbles(c);
    n[0] < 10 && n[1] < 10 && n[2] < 10 && n[3] < 10
  }

  /** What `(n0 << 12)` keeps of the reading of the top digit: a letter's reading loses 48. */
  function TopReading(v: nat): nat {
    if v < 10 then v * 0x1000 else (v - 9) * 0x1000
  }

  /**
   * The code unit the as-written decoder reads back from the escape of `c`:
   * every hex letter is misread as its character code less 48, and the top
   * nibble loses the bits the `<< 12` shifts out.
   */
  function Misread(c: CodeUnit): (r: CodeUnit)
    ensures Literal(c) || DecimalHex(c) ==> r == c
  {
    if Literal(c) then c
    else
      var n := Nibbles(c);
      assert TopReading(n[0]) <= 9 * 0x1000;
      assert DigitReading(n[1]) * 0x100 <= 54 * 0x100;
      assert DigitReading(n[2]) * 0x10 <= 54 * 0x10;
      TopReading(n[0]) + DigitReading(n[1]) * 0x100 + DigitReading(n[2]) * 0x10 + DigitReading(n[3])
  }

  lemma DigitOfHexDigit(v: nat)
    requires v < 16
    ensures DigitAsWritten(HexDigit(v)) == Ok(DigitReading(v))
  {
  }

  lemma ReadDigitsCons(ch: char, v: nat, t: string, n: nat, vs: seq<nat>)
    requires DigitAsWritten(ch) == Ok(v) && ReadDigits(t, n) == Ok(vs)
    ensures ReadDigits([ch] + t, n + 1) == Ok([v] + vs)
  {
    assert ([ch] + t)[0] == ch && ([ch] + t)[1..] == t;
  }

  /** Four hex digits are read as the four digit readings, whatever follows. */
  lemma ReadHexDigits(d0: nat, d1: nat, d2: nat, d3: nat, rest: string)
    requires d0 < 16 && d1 < 16 && d2 < 16 && d3 < 16
    ensures ReadDigits([HexDigit(d0), HexDigit(d1), HexDigit(d2), HexDigit(d3)] + rest, 4)
         == Ok([DigitReading(d0), DigitReading(d1), DigitReading(d2), DigitReading(d3)])
  {
    DigitOfHexDigit(d0);
    DigitOfHexDigit(d1);
    DigitOfHexDigit(d2);
    DigitOfHexDigit(d3);
    var t3 := [HexDigit(d3)] + rest;
    var t2 := [HexDigit(d2)] + t3;
    var t1 := [HexDigit(d1)] + t2;
    ReadDigitsCons(HexDigit(d3), DigitReading(d3), rest, 0, []);
    assert [DigitReading(d3)] + [] == [DigitReading(d3)];
    ReadDigitsCons(HexDigit(d2), DigitReading(d2), t3, 1, [DigitReading(d3)]);
    assert [DigitReading(d2)] + [DigitReading(d3)] == [DigitReading(d2), DigitReading(d3)];
    ReadDigitsCons(HexDigit(d1), DigitReading(d1), t2, 2, [DigitReading(d2), DigitReading(d3)]);
    assert [DigitReading(d1)] + [DigitReading(d2), DigitReading(d3)] == [DigitReading(d1), DigitReading(d2), DigitReading(d3)];
    ReadDigitsCons(HexDigit(d0), DigitReading(d0), t1, 3, [DigitReading(d1), DigitReading(d2), DigitReading(d3)]);
    assert [DigitReading(d0)] + [DigitReading(d1), DigitReading(d2), DigitReading(d3)]
        == [DigitReading(d0), DigitReading(d1), DigitReading(d2), DigitReading(d3)];
    assert [HexDigit(d0), HexDigit(d1), HexDigit(d2), HexDigit(d3)] + rest == [HexDigit(d0)] + t1;
  }

  /** The reading of the top digit, shifted into a `u16`. */
  lemma TopShift(v: nat)
    requires v < 16
    ensures DigitReading(v) * 0x1000 % 0x1_0000 == TopReading(v)
  {
    if v >= 10 {
      assert DigitReading(v) * 0x1000 == TopReading(v) + 3 * 0x1_0000;
    }
  }

  /** The checked sums of four digit readings never overflow. */
  lemma CombineReadings(d0: nat, d1: nat, d2: nat, d3: nat)
    requires d0 < 16 && d1 < 16 && d2 < 16 && d3 < 16
    ensures TopReading(d0) + DigitReading(d1) * 0x100 + DigitReading(d2) * 0x10 + DigitReading(d3) < 0x1_0000
    ensures Combine([DigitReading(d0), DigitReading(d1), DigitReading(d2), DigitReading(d3)])
         == Ok(TopReading(d0) + DigitReading(d1) * 0x100 + DigitReading(d2) * 0x10 + DigitReading(d3))
  {
    TopShift(d0);
    var b, c := DigitReading(d1) * 0x100, DigitReading(d2) * 0x10;
    assert b <= 54 * 0x100 && b % 0x1_0000 == b;
    assert c <= 54 * 0x10 && c % 0x1_0000 == c;
    assert DigitReading(d3) % 0x1_0000 == DigitReading(d3);
  }

  /** An escape the encoder wrote never makes the as-written decoder fail: it reads `Misread(c)`. */
  lemma EscapeValueOfHex(c: CodeUnit, rest: string)
    requires !Literal(c)
    ensures EscapeValue(Hex4(c) + rest) == Ok(Misread(c))
  {
    var n := Nibbles(c);
    ReadHexDigits(n[0], n[1], n[2], n[3], rest);
    CombineReadings(n[0], n[1], n[2], n[3]);
  }

  /** One escaped unit followed by more text is read back as `Misread` of the unit, then the rest. */
  lemma UnescapeUnit(c: CodeUnit, rest: string)
    ensures Unescape(EscapeUnit(c) + rest) == Prepend([Misread(c)], Unescape(rest))
  {
    if Literal(c) {
      UnescapeLiteral(c, rest);
    } else {
      UnescapeEscaped(c, rest);
    }
  }

  lemma UnescapeLiteral(c: CodeUnit, rest: string)
    requires Literal(c)
    ensures Unescape(EscapeUnit(c) + rest) == Prepend([c], Unescape(rest))
  {
    var s := EscapeUnit(c) + rest;
    assert s[0] as int == c && s[1..] == rest;
  }

  lemma UnescapeEscaped(c: CodeUnit, rest: string)
    requires !Literal(c)
    ensures Unescape(EscapeUnit(c) + rest) == Prepend([Misread(c)], Unescape(rest))
  {
    var s := EscapeUnit(c) + rest;
    assert s == "%" + (Hex4(c) + rest);
    assert s[1..] == Hex4(c) + rest;
    EscapeValueOfHex(c, rest);
    assert s[5..] == rest;
  }

  function MisreadAll(units: seq<CodeUnit>): (r: seq<CodeUnit>)
    ensures |r| == |units| && forall i :: 0 <= i < |units| ==> r[i] == Misread(units[i])
  {
    seq(|units|, i requires 0 <= i < |units| => Misread(units[i]))
  }

  lemma MisreadAllCons(units: seq<CodeUnit>)
    requires units != []
    ensures MisreadAll(units) == [Misread(units[0])] + MisreadAll(units[1..])
  {
    var r := MisreadAll(units);
    var t := [Misread(units[0])] + MisreadAll(units[1..]);
    forall i | 0 <= i < |r| ensures r[i] == t[i] {
      if i > 0 {
        assert units[1..][i - 1] == units[i];
      }
    }
  }

  /**
   * The as-written decoder inverts the escape except on hex letters: every
   * escaped path is read back without error, unit by unit, as `Misread`.
   */
  lemma {:induction false} UnescapeEscape(units: seq<CodeUnit>)
    ensures Unescape(Escape(units)) == Ok(MisreadAll(units))
    decreases |units|
  {
    if units == [] {
    } else {
      UnescapeUnit(units[0], Escape(units[1..]));
      UnescapeEscape(units[1..]);
      MisreadAllCons(units);
    }
  }

  /**
   * `Misread` leaves a unit unchanged exactly when it is written literally or
   * its hex form has no letter: any letter makes the decoded unit differ.
   */
  lemma MisreadExactly(c: CodeUnit)
    ensures Misread(c) == c <==> Literal(c) || DecimalHex(c)
  {
    if !Literal(c) && !DecimalHex(c) {
      var n := Nibbles(c);
      var top := DigitReading(n[0]) * 0x1000 % 0x1_0000;
      if n[0] >= 10 {
        assert top == (n[0] - 9) * 0x1000;
      } else {
        assert top == n[0] * 0x1000;
      }
    }
  }

  // ===========================================================================
  // The header fields read back
  // ===========================================================================

  /** A field text that `splitn(4, " | ")` ends exactly where it was written to end. */
  predicate FieldSafe(a: string) {
    !Contains(a, FieldSep) && !(|a| >= 2 && a[|a| - 2..] == " |")
  }

  /** A hash that reads back as itself: not the sentinel `None` and not cut short by the separator. */
  predicate HashSurvives(hash: Option<string>) {
    hash.Some? ==> hash.value != "None" && FieldSafe(hash.value)
  }

  lemma BarFreeIsFieldSafe(a: string)
    requires '|' !in a
    ensures FieldSafe(a)
  {
    if |a| >= 2 {
      assert a[|a| - 2..][1] == a[|a| - 1];
    }
    if Contains(a, FieldSep) {
      SecondCharOfMatch(a, FieldSep, Find(a, FieldSep).value);
    }
  }

  /** No `" | "` starts inside a safe field followed by the separator. */
  lemma NoSepInField(a: string, rest: string, j: nat)
    requires FieldSafe(a) && j < |a|
    ensures !OccursAt(a + FieldSep + rest, FieldSep, j)
  {
    var s := a + FieldSep + rest;
    if j + 3 <= |a| {
      assert a[j..j + 3] == s[j..j + 3];
      assert OccursAt(s, FieldSep, j) ==> OccursAt(a, FieldSep, j);
    } else if j + 2 == |a| {
      assert a[|a| - 2..] == [a[j], a[j + 1]] == [s[j], s[j + 1]];
      MatchStart(s, FieldSep, j);
    } else {
      assert s[j + 1] == ' ';
      MatchStart(s, FieldSep, j);
    }
  }

  /** The first `" | "` after a safe field is the one written after it. */
  lemma SplitAtField(a: string, rest: string)
    requires FieldSafe(a)
    ensures SplitOnce(a + FieldSep + rest, FieldSep) == Some((a, rest))
  {
    var s := a + FieldSep + rest;
    assert s[|a|..|a| + 3] == FieldSep;
    forall j: nat | j < |a| ensures !OccursAt(s, FieldSep, j) {
      NoSepInField(a, rest, j);
    }
    FindIs(s, FieldSep, |a|);
    assert s[..|a|] == a;
    assert s[|a| + 3..] == rest;
  }

  /** `splitn(4, " | ")` of four fields, the first three safe, gives the four fields back. */
  lemma FieldsOfFour(a: string, b: string, c: string, d: string, size: U64, modified: Option<U64>)
    requires FieldSafe(a) && FieldSafe(b) && FieldSafe(c)
    requires ParseU64(Trim(a)) == Some(size) && ParseModified(b) == Some(modified)
    ensures Fields(a + FieldSep + (b + FieldSep + (c + FieldSep + d)))
         == Ok(RawFields(size, modified, ReadHash(c), d))
  {
    SplitAtField(a, b + FieldSep + (c + FieldSep + d));
    SplitAtField(b, c + FieldSep + d);
    SplitAtField(c, d);
  }

  lemma DigitsField(d: string)
    requires d != [] && AllDigits(d)
    ensures FieldSafe(d) && FieldSafe(" " + d) && d != "None"
    ensures Trim(d) == d && Trim(" " + d) == d
  {
    DigitsHaveNoBar(d);
    BarFreeIsFieldSafe(d);
    BarFreeIsFieldSafe(" " + d);
    DigitsTrim(d);
  }

  lemma DigitsHaveNoBar(d: string)
    requires d != [] && AllDigits(d)
    ensures '|' !in d && '|' !in " " + d && d != "None"
  {
    forall i | 0 <= i < |d| ensures d[i] != '|' {
      assert IsDigit(d[i]);
    }
    assert IsDigit(d[0]);
  }

  lemma DigitsTrim(d: string)
    requires d != [] && AllDigits(d)
    ensures Trim(d) == d && Trim(" " + d) == d
  {
    assert IsDigit(d[0]) && IsDigit(d[|d| - 1]);
    assert TrimStart(d) == d;
    assert TrimEnd(d) == d;
    assert (" " + d)[1..] == d;
    assert TrimStart(" " + d) == d;
  }

  lemma DecField(n: U64)
    ensures FieldSafe(Dec(n)) && FieldSafe(" " + Dec(n)) && Dec(n) != "None"
    ensures ParseU64(Trim(Dec(n))) == Some(n) && ParseU64(Trim(" " + Dec(n))) == Some(n)
  {
    DigitsField(Dec(n));
    ParseDec(n);
  }

  /** A written line is `>` followed by the four fields, each but the last followed by the separator. */
  lemma EncodeShape(fi: FileInfo)
    ensures Encode(fi)
         == ">" + (" " + Dec(fi.size) + FieldSep
                     + (ModifiedField(fi.modified) + FieldSep + (HashField(fi.hash) + FieldSep + Escape(fi.path))))
  {
    Regroup(Dec(fi.size), ModifiedField(fi.modified), HashField(fi.hash), Escape(fi.path));
  }

  lemma Regroup(x: string, b: string, c: string, d: string)
    ensures "> " + x + FieldSep + b + FieldSep + c + FieldSep + d
         == ">" + (" " + x + FieldSep + (b + FieldSep + (c + FieldSep + d)))
  {
    var sep := FieldSep;
    assert "> " + x == ">" + (" " + x);
    calc {
      "> " + x + sep + b + sep + c + sep + d;
      ">" + (" " + x) + sep + b + sep + c + sep + d;
      ">" + (" " + x + sep + b + sep + c + sep + d);
      ">" + (" " + x + sep + (b + sep + (c + sep + d)));
    }
  }

  lemma ModifiedFieldReads(modified: Option<U64>)
    ensures FieldSafe(ModifiedField(modified)) && ParseModified(ModifiedField(modified)) == Some(modified)
  {
    match modified {
      case Some(secs) => DecField(secs);
      case None => BarFreeIsFieldSafe("None");
    }
  }

  lemma HashFieldReads(hash: Option<string>)
    requires HashSurvives(hash)
    ensures FieldSafe(HashField(hash)) && ReadHash(HashField(hash)) == hash
  {
    if hash.None? {
      BarFreeIsFieldSafe("None");
    }
  }

  /** The fields of a written line (after its `>`) are read back as written, the hash through its sentinel. */
  lemma FieldsOfEncodedHash(fi: FileInfo)
    requires FieldSafe(HashField(fi.hash))
    ensures Encode(fi)[0] == '>'
    ensures Fields(Encode(fi)[1..])
         == Ok(RawFields(fi.size, fi.modified, ReadHash(HashField(fi.hash)), Escape(fi.path)))
  {
    var a := " " + Dec(fi.size);
    var b := ModifiedField(fi.modified);
    var c := HashField(fi.hash);
    var d := Escape(fi.path);
    var fields := a + FieldSep + (b + FieldSep + (c + FieldSep + d));
    EncodeShape(fi);
    assert Encode(fi) == ">" + fields;
    assert Encode(fi)[1..] == fields;
    DecField(fi.size);
    ModifiedFieldReads(fi.modified);
    FieldsOfFour(a, b, c, d, fi.size, fi.modified);
  }

  /** The fields of a written line (after its `>`) are read back as written. */
  lemma FieldsOfEncoded(fi: FileInfo)
    requires HashSurvives(fi.hash)
    ensures Encode(fi)[0] == '>'
    ensures Fields(Encode(fi)[1..]) == Ok(RawFields(fi.size, fi.modified, fi.hash, Escape(fi.path)))
  {
    HashFieldReads(fi.hash);
    FieldsOfEncodedHash(fi);
  }

  // ===========================================================================
  // Round trips
  // ===========================================================================

  /** Decoding a written line gives the record back, except that hex letters in escapes are misread. */
  lemma DecodeEncodeAsWritten(fi: FileInfo)
    requires HashSurvives(fi.hash)
    ensures Decode(Encode(fi)) == Ok(fi.(path := MisreadAll(fi.path)))
  {
    FieldsOfEncoded(fi);
    UnescapeEscape(fi.path);
  }

  /** Units that need escaping all have a hex form of decimal digits only. */
  predicate DecimalEscapes(units: seq<CodeUnit>) {
    forall i :: 0 <= i < |units| ==> Literal(units[i]) || DecimalHex(units[i])
  }

  /**
   * The round trip the source tests: a record whose hash survives and whose
   * escaped units use decimal digits only is decoded back to itself.
   */
  lemma DecodeEncode(fi: FileInfo)
    requires HashSurvives(fi.hash)
    requires DecimalEscapes(fi.path)
    ensures Decode(Encode(fi)) == Ok(fi)
  {
    DecodeEncodeAsWritten(fi);
    assert MisreadAll(fi.path) == fi.path;
  }

  lemma MisreadE9()
    ensures Hex4(0xE9) == "00e9" && Misread(0xE9) == 0x359
  {
    assert Nibbles(0xE9) == [0, 0, 14, 9];
  }

  lemma EscapeSingle(c: CodeUnit)
    ensures Escape([c]) == EscapeUnit(c)
  {
    assert [c][1..] == [];
  }

  lemma EscapeE9()
    ensures Escape([0xE9]) == "%00e9"
  {
    EscapeSingle(0xE9);
    MisreadE9();
    assert "%" + "00e9" == "%00e9";
  }

  lemma MisreadAllE9()
    ensures MisreadAll([0xE9]) == [0x359]
  {
    MisreadE9();
  }

  /** Any record whose path is the unit U+00E9, written as `%00e9`, is read back with U+0359 instead. */
  lemma AsWrittenMisreadsLetters(fi: FileInfo)
    requires fi.path == [0xE9] && HashSurvives(fi.hash)
    ensures Escape(fi.path) == "%00e9"
    ensures Decode(Encode(fi)) == Ok(fi.(path := [0x359]))
  {
    EscapeE9();
    MisreadAllE9();
    DecodeEncodeAsWritten(fi);
  }

  // ===========================================================================
  // What the decoder does with lines the encoder never writes
  // ===========================================================================

  /** A record whose hash is the text `None` comes back without a hash. */
  lemma HashNamedNoneIsLost(fi: FileInfo)
    requires fi.hash == Some("None")
    ensures Decode(Encode(fi)) == Ok(FileInfo(MisreadAll(fi.path), None, fi.modified, fi.size))
  {
    BarFreeIsFieldSafe("None");
    FieldsOfEncodedHash(fi);
    UnescapeEscape(fi.path);
  }

  /** Reading the digits of an escape looks at no more characters than it needs. */
  lemma {:induction false} ReadDigitsExtend(t: string, x: string, n: nat)
    requires |t| >= n
    ensures ReadDigits(t + x, n) == ReadDigits(t, n)
    decreases n
  {
    if n > 0 {
      assert (t + x)[0] == t[0];
      assert (t + x)[1..] == t[1..] + x;
      ReadDigitsExtend(t[1..], x, n - 1);
    }
  }

  /** A path prefix the decoder reads without error is read the same whatever follows it. */
  lemma {:induction false} UnescapeConcat(p: string, x: string)
    requires Unescape(p).Ok?
    ensures Unescape(p + x) == Prepend(Unescape(p).value, Unescape(x))
    decreases |p|
  {
    if p == [] {
      assert p + x == x;
      if Unescape(x).Ok? {
        assert [] + Unescape(x).value == Unescape(x).value;
      }
    } else if p[0] == '%' {
      var u := EscapeValue(p[1..]).value;
      ReadDigitsExtend(p[1..], x, 4);
      assert (p + x)[0] == '%';
      assert (p + x)[1..] == p[1..] + x;
      assert (p + x)[5..] == p[5..] + x;
      UnescapeConcat(p[5..], x);
      PrependPrepend([u], Unescape(p[5..]).value, Unescape(x));
    } else {
      var u := p[0] as int % 0x1_0000;
      assert (p + x)[0] == p[0];
      assert (p + x)[1..] == p[1..] + x;
      UnescapeConcat(p[1..], x);
      PrependPrepend([u], Unescape(p[1..]).value, Unescape(x));
    }
  }

  lemma {:induction false} ReadDigitsShort(t: string, n: nat)
    requires |t| < n
    requires forall i :: 0 <= i < |t| ==> DigitAsWritten(t[i]).Ok?
    ensures ReadDigits(t, n) == Err(Malformed)
  {
    if t != [] {
      ReadDigitsShort(t[1..], n - 1);
    }
  }

  /** An escape cut short by the end of the line is rejected (`ok_or(())?`), wherever it starts. */
  lemma TruncatedEscapeRejected(p: string, t: string)
    requires Unescape(p).Ok?
    requires |t| < 4
    requires forall i :: 0 <= i < |t| ==> t[i] as int % 0x100 >= '0' as int
    ensures Unescape(p + "%" + t) == Err(Malformed)
  {
    var e := "%" + t;
    assert p + "%" + t == p + e;
    TruncatedTail(t);
    UnescapeConcat(p, e);
  }

  lemma TruncatedTail(t: string)
    requires |t| < 4
    requires forall i :: 0 <= i < |t| ==> t[i] as int % 0x100 >= '0' as int
    ensures Unescape("%" + t) == Err(Malformed)
  {
    assert ("%" + t)[1..] == t;
    ReadDigitsShort(t, 4);
  }

  lemma {:induction false} ReadDigitsPanics(d: string, ch: char, t: string, n: nat)
    requires |d| < n
    requires forall i :: 0 <= i < |d| ==> DigitAsWritten(d[i]).Ok?
    requires DigitAsWritten(ch) == Err(ArithmeticPanic)
    ensures ReadDigits(d + [ch] + t, n) == Err(ArithmeticPanic)
    decreases |d|
  {
    var s := d + [ch] + t;
    if d == [] {
      assert s[0] == ch;
    } else {
      assert s[0] == d[0];
      assert s[1..] == d[1..] + [ch] + t;
      ReadDigitsPanics(d[1..], ch, t, n - 1);
    }
  }

  /**
   * A character whose low byte is below `'0'` in any of the four places of an
   * escape makes `as u8 - b'0'` overflow, wherever the escape starts.
   */
  lemma EscapeBelowZeroPanics(p: string, d: string, ch: char, t: string)
    requires Unescape(p).Ok?
    requires |d| < 4 && forall i :: 0 <= i < |d| ==> d[i] as int % 0x100 >= '0' as int
    requires ch as int % 0x100 < '0' as int
    ensures Unescape(p + "%" + d + [ch] + t) == Err(ArithmeticPanic)
  {
    var e := "%" + d + [ch] + t;
    assert e[1..] == d + [ch] + t;
    assert p + "%" + d + [ch] + t == p + e;
    ReadDigitsPanics(d, ch, t, 4);
    UnescapeConcat(p, e);
  }

  /** Outside escapes a character is kept as its code point cut to 16 bits (`c as u16`). */
  lemma WideCharTruncated(ch: char, t: string)
    requires ch != '%'
    ensures Unescape([ch] + t).Ok? <==> Unescape(t).Ok?
    ensures Unescape([ch] + t).Ok? ==> Unescape([ch] + t).value == [ch as int % 0x1_0000] + Unescape(t).value
  {
    assert ([ch] + t)[0] == ch && ([ch] + t)[1..] == t;
  }

  /**
   * What a current-format line the decoder accepts is made of: three fields
   * free of the separator, each followed by it, then the path, which keeps
   * any further separators.
   */
  lemma FieldsSound(s: string) returns (a: string, b: string, c: string)
    requires Fields(s).Ok?
    ensures s == a + FieldSep + (b + FieldSep + (c + FieldSep + Fields(s).value.path))
    ensures !Contains(a, FieldSep) && !Contains(b, FieldSep) && !Contains(c, FieldSep)
    ensures ParseU64(Trim(a)) == Some(Fields(s).value.size)
    ensures ParseModified(b) == Some(Fields(s).value.modified)
    ensures Fields(s).value.hash == (ReadHash(c))
  {
    var r1, r2: string;
    a, r1 := SplitOnce(s, FieldSep).value.0, SplitOnce(s, FieldSep).value.1;
    b, r2 := SplitOnce(r1, FieldSep).value.0, SplitOnce(r1, FieldSep).value.1;
    c := SplitOnce(r2, FieldSep).value.0;
  }

  // ===========================================================================
  // The cases the source's tests check
  // ===========================================================================

  lemma PercentIsDecimalHex()
    ensures !Literal(0x25) && DecimalHex(0x25)
  {
    assert Nibbles(0x25) == [0, 0, 2, 5];
  }

  lemma AsciiTestPath()
    ensures Utf16("C:\\%\\123") == [0x43, 0x3A, 0x5C, 0x25, 0x5C, 0x31, 0x32, 0x33]
  {
    var s := "C:\\%\\123";
    assert forall i :: 0 <= i < |s| ==> s[i] as int < 0x80;
    Utf16Shape(s);
  }

  lemma AsciiTestPathEscapes()
    ensures DecimalEscapes([0x43, 0x3A, 0x5C, 0x25, 0x5C, 0x31, 0x32, 0x33])
  {
    PercentIsDecimalHex();
  }

  /** The record with path `C:\%\123`, hash `abcde`, time 10000 and size 10000 survives the round trip. */
  lemma RoundTripTestAsciiPath()
    ensures Decode(Encode(FileInfo(Utf16("C:\\%\\123"), Some("abcde"), Some(10000), 10000)))
         == Ok(FileInfo(Utf16("C:\\%\\123"), Some("abcde"), Some(10000), 10000))
  {
    AsciiTestPath();
    AsciiTestPathEscapes();
    BarFreeIsFieldSafe("abcde");
    DecodeEncode(FileInfo([0x43, 0x3A, 0x5C, 0x25, 0x5C, 0x31, 0x32, 0x33], Some("abcde"), Some(10000), 10000));
  }

  /** The record with path units 1234, 0001, 0000, 9999, 0034 (hex) and no hash or time survives the round trip. */
  lemma RoundTripTestWideUnits()
    ensures Decode(Encode(FileInfo([0x1234, 0x0001, 0x0000, 0x9999, 0x0034], None, None, 10000)))
         == Ok(FileInfo([0x1234, 0x0001, 0x0000, 0x9999, 0x0034], None, None, 10000))
  {
    WideTestUnits();
    DecodeEncode(FileInfo([0x1234, 0x0001, 0x0000, 0x9999, 0x0034], None, None, 10000));
  }

  lemma WideTestUnits()
    ensures DecimalEscapes([0x1234, 0x0001, 0x0000, 0x9999, 0x0034])
  {
    assert Nibbles(0x1234) == [1, 2, 3, 4];
    assert Nibbles(0x0001) == [0, 0, 0, 1];
    assert Nibbles(0x0000) == [0, 0, 0, 0];
    assert Nibbles(0x9999) == [9, 9, 9, 9];
  }

  /**
   * The first character alone chooses the format: a line starting with `>` is
   * read in the current format, any other line in the legacy format, which
   * never carries a modification time.
   */
  lemma FormatChoice(line: string)
    ensures |line| > 0 && line[0] == '>' ==> Decode(line) == DecodeCurrent(line[1..])
    ensures !(|line| > 0 && line[0] == '>') ==> Decode(line) == DecodeLegacy(line)
    ensures !(|line| > 0 && line[0] == '>') && Decode(line).Ok? ==> Decode(line).value.modified.None?
  {
  }

  /** The legacy lines of the source's test are read with no modification time: with a hash, ... */
  lemma DecodeLegacyTestWithHash()
    ensures Decode("    556602 bytes: " + LegacyLine.TestHash + " " + LegacyLine.TestPath)
         == Ok(FileInfo(Utf16(LegacyLine.TestPath), Some(LegacyLine.TestHash), None, 556602))
  {
    LegacyLine.SplitLineTestWithHash();
    var line := "    556602 bytes: " + LegacyLine.TestHash + " " + LegacyLine.TestPath;
    assert line[0] == ' ';
    FormatChoice(line);
  }

  /** ... without one, ... */
  lemma DecodeLegacyTestWithoutHash()
    ensures Decode("    556602 bytes: " + LegacyLine.TestPath)
         == Ok(FileInfo(Utf16(LegacyLine.TestPath), None, None, 556602))
  {
    LegacyLine.SplitLineTestWithoutHash();
    var line := "    556602 bytes: " + LegacyLine.TestPath;
    assert line[0] == ' ';
    FormatChoice(line);
  }

  /** ... and with a space in the path. */
  lemma DecodeLegacyTestSpaceInPath()
    ensures Decode("    556602 bytes: " + LegacyLine.TestHash + " " + LegacyLine.TestPathWithSpace)
         == Ok(FileInfo(Utf16(LegacyLine.TestPathWithSpace), Some(LegacyLine.TestHash), None, 556602))
  {
    LegacyLine.SplitLineTestSpaceInPath();
    var line := "    556602 bytes: " + LegacyLine.TestHash + " " + LegacyLine.TestPathWithSpace;
    assert line[0] == ' ';
    FormatChoice(line);
  }
}
