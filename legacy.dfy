/**
 * The legacy line format `<size> bytes: [<hash> ]<path>` of src/main.rs: the
 * collector writes it and `split_line` reads it back when a previous run's
 * output is loaded as the cache.
 */
module LegacyLine {
  import opened Wrappers
  import opened Text

  const BytesSep: string := " bytes: "

  /** A cache entry: the hash recorded for a path, if any, and its size (`(Option<String>, u64)`). */
  datatype CacheEntry = CacheEntry(hash: Option<string>, size: U64)

  /** The text after " bytes: ": `<hash> <path>` when there is a hash, else `<path>`. */
  function Tail(path: string, hash: Option<string>): string {
    match hash
    case Some(h) => h + " " + path
    case None => path
  }

  /**
   * `split_line`: the size is the trimmed text before the first " bytes: ";
   * hash and path come from the piece between the first and the second
   * " bytes: ", split at its first space.
   */
  function SplitLine(line: string): Option<(string, CacheEntry)> {
    match SplitOnce(line, BytesSep)
    case None => None
    case Some((a, rest)) =>
      match ParseU64(Trim(a))
      case None => None
      case Some(size) =>
        var bc := FirstPiece(rest, BytesSep);
        match SplitOnce(bc, " ")
        case Some((b, c)) => Some((c, CacheEntry(Some(b), size)))
        case None => Some((bc, CacheEntry(None, size)))
  }

  /** The collector's line: `"{:12} bytes: {} {}"` with a hash, `"{:12} bytes: {}"` without. */
  function FormatLine(path: string, hash: Option<string>, size: U64): string {
    PadLeft(Dec(size), 12) + BytesSep + Tail(path, hash)
  }

  /**
   * When a written line reads back to what was written: a hash has no space,
   * and the path is not cut by a later " bytes: " (with a hash) or by a space
   * (without one).
   */
  predicate Readable(path: string, hash: Option<string>) {
    match hash
    case Some(h) => ' ' !in h && !Contains(" " + path, BytesSep)
    case None => ' ' !in path
  }

  // ---------------------------------------------------------------------------
  // Properties
  // ---------------------------------------------------------------------------

  /** `split_line` accepts exactly the lines that have a " bytes: " after a `u64`. */
  lemma SplitLineAccepts(line: string)
    ensures SplitLine(line).Some? <==>
      Contains(line, BytesSep) && ParseU64(Trim(FirstPiece(line, BytesSep))).Some?
  {
    if Contains(line, BytesSep) {
      var a := SplitOnce(line, BytesSep).value.0;
      assert FirstPiece(line, BytesSep) == a;
    }
  }

  /**
   * What `split_line` returns is made of the first two pieces only: the size
   * from the first, and from the second either `<hash> <path>` split at its
   * first space, or a space-free path. So every result is Readable.
   */
  lemma SplitLineSound(line: string, path: string, e: CacheEntry)
    requires SplitLine(line) == Some((path, e))
    ensures Contains(line, BytesSep)
    ensures var (a, rest) := SplitOnce(line, BytesSep).value;
      ParseU64(Trim(a)) == Some(e.size) && FirstPiece(rest, BytesSep) == Tail(path, e.hash)
    ensures Readable(path, e.hash)
  {
    var rest := SplitOnce(line, BytesSep).value.1;
    PieceIsReadable(FirstPiece(rest, BytesSep));
  }

  /** A piece without " bytes: ", split at its first space if it has one, gives a Readable path and hash. */
  lemma PieceIsReadable(bc: string)
    requires !Contains(bc, BytesSep)
    ensures match SplitOnce(bc, " ")
      case Some((b, c)) => Readable(c, Some(b)) && bc == Tail(c, Some(b))
      case None => Readable(bc, None) && bc == Tail(bc, None)
  {
    match SplitOnce(bc, " ")
    case Some((b, c)) =>
      ContainsChar(b, ' ');
      assert bc == b + (" " + c);
      NotInSuffix(b, " " + c, BytesSep);
    case None =>
      ContainsChar(bc, ' ');
  }

  /** The first " bytes: " of `lead + " bytes: " + tail` is the one after `lead` when `lead` has no 'b'. */
  lemma FirstSepAfterLead(lead: string, tail: string)
    requires 'b' !in lead
    ensures Find(lead + BytesSep + tail, BytesSep) == Some(|lead|)
  {
    var s := lead + BytesSep + tail;
    assert s[|lead|..|lead| + |BytesSep|] == BytesSep;
    forall j | 0 <= j < |lead| ensures !OccursAt(s, BytesSep, j) {
      if OccursAt(s, BytesSep, j) {
        SecondCharOfMatch(s, BytesSep, j);
      }
    }
    FindIs(s, BytesSep, |lead|);
  }

  /** " bytes: " cannot occur in a text without a 'b'. */
  lemma NoSepWithoutB(s: string)
    requires 'b' !in s
    ensures !Contains(s, BytesSep)
  {
    if Contains(s, BytesSep) {
      SecondCharOfMatch(s, BytesSep, Find(s, BytesSep).value);
    }
  }

  /** The first space of `<hash> <path>` is the one after a space-free hash. */
  lemma SplitAfterHash(h: string, path: string)
    requires ' ' !in h
    ensures SplitOnce(h + " " + path, " ") == Some((h, path))
  {
    var s := h + " " + path;
    assert s[|h|..|h| + 1] == " ";
    forall j | 0 <= j < |h| ensures !OccursAt(s, " ", j) {
      assert s[j] == h[j];
    }
    FindIs(s, " ", |h|);
    assert s[..|h|] == h && s[|h| + 1..] == path;
  }

  /** A collector line reads back through `split_line` to the path, hash and size written. */
  lemma ReadFormatLine(path: string, hash: Option<string>, size: U64)
    requires Readable(path, hash)
    ensures SplitLine(FormatLine(path, hash, size)) == Some((path, CacheEntry(hash, size)))
  {
    ReadPaddedLine(path, hash, size, 12);
  }

  /** The same for any padding width of the size field. */
  lemma ReadPaddedLine(path: string, hash: Option<string>, size: U64, width: nat)
    requires Readable(path, hash)
    ensures SplitLine(PadLeft(Dec(size), width) + BytesSep + Tail(path, hash))
      == Some((path, CacheEntry(hash, size)))
  {
    var lead := PadLeft(Dec(size), width);
    var tail := Tail(path, hash);
    PaddedSize(size, width);
    TailReads(path, hash);
    SplitLineShape(lead, tail);
  }

  /** The padded size field has no 'b' and reads back as the size. */
  lemma PaddedSize(size: U64, width: nat)
    ensures 'b' !in PadLeft(Dec(size), width)
    ensures ParseU64(Trim(PadLeft(Dec(size), width))) == Some(size)
  {
    var d := Dec(size);
    var pad := Spaces(if |d| < width then width - |d| else 0);
    PadLeftShape(d, width);
    SpacesShape(|pad|);
    DigitsAfterSpaces(pad, d, 'b');
    TrimPaddedDigits(pad, d);
    ParseDec(size);
  }

  /** The padded size field holds only spaces and digits. */
  lemma PaddedSizeChars(size: U64, width: nat, c: char)
    requires c != ' ' && !IsDigit(c)
    ensures c !in PadLeft(Dec(size), width)
  {
    var d := Dec(size);
    var pad := Spaces(if |d| < width then width - |d| else 0);
    PadLeftShape(d, width);
    SpacesShape(|pad|);
    DigitsAfterSpaces(pad, d, c);
  }

  lemma DigitsAfterSpaces(pad: string, d: string, c: char)
    requires forall i :: 0 <= i < |pad| ==> pad[i] == ' '
    requires AllDigits(d) && c != ' ' && !IsDigit(c)
    ensures c !in pad + d
  {
    var lead := pad + d;
    forall i | 0 <= i < |lead| ensures lead[i] != c {
      if i < |pad| {
        assert lead[i] == pad[i];
      } else {
        assert lead[i] == d[i - |pad|];
      }
    }
  }

  /** A Readable tail holds no " bytes: " and splits at its first space into hash and path. */
  lemma TailReads(path: string, hash: Option<string>)
    requires Readable(path, hash)
    ensures !Contains(Tail(path, hash), BytesSep)
    ensures SplitOnce(Tail(path, hash), " ") ==
      match hash
      case Some(h) => Some((h, path))
      case None => None
  {
    match hash
    case Some(h) =>
      assert Tail(path, hash) == h + (" " + path);
      NotInConcat(h, " " + path, BytesSep);
      SplitAfterHash(h, path);
    case None =>
      assert !Contains([], BytesSep);
      assert path == path + [];
      NotInConcat(path, [], BytesSep);
      ContainsChar(path, ' ');
  }

  /** How `split_line` reads `lead + " bytes: " + tail` when `lead` has no 'b' and `tail` no " bytes: ". */
  lemma SplitLineShape(lead: string, tail: string)
    requires 'b' !in lead && !Contains(tail, BytesSep)
    ensures SplitLine(lead + BytesSep + tail) ==
      match ParseU64(Trim(lead))
      case None => None
      case Some(size) =>
        match SplitOnce(tail, " ")
        case Some((b, c)) => Some((c, CacheEntry(Some(b), size)))
        case None => Some((tail, CacheEntry(None, size)))
  {
    var line := lead + BytesSep + tail;
    FirstSepAfterLead(lead, tail);
    assert line[..|lead|] == lead;
    assert line[|lead| + |BytesSep|..] == tail;
    assert SplitOnce(line, BytesSep) == Some((lead, tail));
    assert FirstPiece(tail, BytesSep) == tail;
  }

  /** Re-writing what `split_line` read, then reading it again, gives the same entry. */
  lemma ReformatIsStable(line: string, path: string, e: CacheEntry)
    requires SplitLine(line) == Some((path, e))
    ensures SplitLine(FormatLine(path, e.hash, e.size)) == SplitLine(line)
  {
    SplitLineSound(line, path, e);
    ReadFormatLine(path, e.hash, e.size);
  }

  // ---------------------------------------------------------------------------
  // The three cases of `test_split_line`
  // ---------------------------------------------------------------------------

  const TestHash: string := "5172bde22e6ca41d60b4682cafa928add3e94bf6"
  const TestPath: string := "..\\..\\10.1007_1-4020-7830-7.pdf"
  const TestPathWithSpace: string := "..\\..\\10.1007_1- 4020-7830-7.pdf"

  /** `    556602 bytes: <hash> <path>`, given the way `split_line` scans a line. */
  lemma {:induction false} TestLine(path: string, hash: Option<string>)
    requires 'b' !in path && (hash.None? ==> ' ' !in path)
    requires hash.Some? ==> ' ' !in hash.value
    ensures SplitLine("    556602 bytes: " + Tail(path, hash)) == Some((path, CacheEntry(hash, 556602)))
  {
    TestLead();
    if hash.Some? {
      assert 'b' !in " " + path;
      NoSepWithoutB(" " + path);
    }
    ReadPaddedLine(path, hash, 556602, 10);
  }

  lemma TestSize()
    ensures Dec(556602) == "556602"
  {
    assert Dec(5) == "5";
    assert Dec(55) == "55";
    assert Dec(556) == "556";
    assert Dec(5566) == "5566";
    assert Dec(55660) == "55660";
  }

  lemma TestLead()
    ensures "    556602 bytes: " == PadLeft(Dec(556602), 10) + BytesSep
  {
    TestSize();
    assert Spaces(4) == "    ";
  }

  lemma TestTexts()
    ensures ' ' !in TestHash && 'b' !in TestPath && 'b' !in TestPathWithSpace
  {
  }

  lemma TailAfterLead(lead: string, h: string, path: string)
    ensures lead + h + " " + path == lead + Tail(path, Some(h))
  {
  }

  lemma SplitLineTestWithHash()
    ensures SplitLine("    556602 bytes: " + TestHash + " " + TestPath)
      == Some((TestPath, CacheEntry(Some(TestHash), 556602)))
  {
    TestTexts();
    TailAfterLead("    556602 bytes: ", TestHash, TestPath);
    TestLine(TestPath, Some(TestHash));
  }

  lemma SplitLineTestWithoutHash()
    ensures SplitLine("    556602 bytes: " + TestPath) == Some((TestPath, CacheEntry(None, 556602)))
  {
    TestTexts();
    assert ' ' !in TestPath;
    TestLine(TestPath, None);
  }

  lemma SplitLineTestSpaceInPath()
    ensures SplitLine("    556602 bytes: " + TestHash + " " + TestPathWithSpace)
      == Some((TestPathWithSpace, CacheEntry(Some(TestHash), 556602)))
  {
    TestTexts();
    TailAfterLead("    556602 bytes: ", TestHash, TestPathWithSpace);
    TestLine(TestPathWithSpace, Some(TestHash));
  }
}
