/**
 * The hashing run of src/main.rs: the cache decision each worker makes per
 * file (`make_hashes`), the collector that counts and prints the records it
 * receives (`collector_thread`), and the loading of a previous run's output
 * into the cache (`load_from`).
 */
module Pipeline {
  import opened Wrappers
  import opened Text
  import opened LegacyLine

  /** A file the walk found: its path and its size in bytes. */
  datatype ScannedFile = ScannedFile(path: string, size: U64)

  /** What a worker sends to the collector for one file. */
  datatype ProgressRecord = ProgressRecord(path: string, hash: Option<string>, size: U64, previouslyKnown: bool)

  /** The cache: path to the hash (if any) and size a previous run printed. */
  type Db = map<string, CacheEntry>

  // ===========================================================================
  // make_hashes
  // ===========================================================================

  /** Whether the cache holds a hash for the file, recorded at the file's current size. */
  predicate CachedAtSize(db: Db, file: ScannedFile) {
    file.path in db && db[file.path].hash.Some? && db[file.path].size == file.size
  }

  /**
   * The record a worker sends for one file. With hashing on, a cached hash
   * recorded at the same size is reused; otherwise `hashFile` (the file's
   * SHA-1 in lowercase hex, or nothing when the file cannot be read) is asked.
   */
  function HashOne(hashing: bool, db: Db, file: ScannedFile, hashFile: string -> Option<string>): (r: ProgressRecord)
    ensures r.path == file.path && r.size == file.size
    ensures r.previouslyKnown <==> hashing && CachedAtSize(db, file)
    ensures !hashing ==> r.hash.None?
  {
    if !hashing then ProgressRecord(file.path, None, file.size, false)
    else if file.path in db && db[file.path].hash.Some? && db[file.path].size == file.size then
      ProgressRecord(file.path, db[file.path].hash, file.size, true)
    else ProgressRecord(file.path, hashFile(file.path), file.size, false)
  }

  /** A reused hash is the cached one, and reusing it reads nothing: the hasher plays no part. */
  lemma CacheHit(db: Db, file: ScannedFile, h1: string -> Option<string>, h2: string -> Option<string>)
    requires CachedAtSize(db, file)
    ensures HashOne(true, db, file, h1).hash == db[file.path].hash
    ensures HashOne(true, db, file, h1) == HashOne(true, db, file, h2)
  {
  }

  /** A file missing from the cache, cached without a hash, or cached at another size is hashed afresh. */
  lemma CacheMiss(db: Db, file: ScannedFile, hashFile: string -> Option<string>)
    requires !CachedAtSize(db, file)
    ensures HashOne(true, db, file, hashFile) == ProgressRecord(file.path, hashFile(file.path), file.size, false)
  {
  }

  /** Every file is processed once, each by the same decision. */
  function MakeHashes(hashing: bool, db: Db, files: seq<ScannedFile>, hashFile: string -> Option<string>): (r: seq<ProgressRecord>)
    ensures |r| == |files|
    ensures forall i :: 0 <= i < |files| ==> r[i] == HashOne(hashing, db, files[i], hashFile)
  {
    seq(|files|, i requires 0 <= i < |files| => HashOne(hashing, db, files[i], hashFile))
  }

  // ===========================================================================
  // collector_thread
  // ===========================================================================

  /** What the collector counts. */
  datatype Statistics = Statistics(totalBytes: U64, totalHashedBytes: U64, totalFiles: nat)

  /** The bytes a record adds to a counter: all of them, or only those hashed in this run. */
  function Counted(r: ProgressRecord, hashedOnly: bool): nat {
    if hashedOnly && r.previouslyKnown then 0 else r.size
  }

  /** The sum of the counted bytes of a sequence of records, in arrival order. */
  function SizeSum(records: seq<ProgressRecord>, hashedOnly: bool): nat
    decreases |records|
  {
    if records == [] then 0
    else SizeSum(records[..|records| - 1], hashedOnly) + Counted(records[|records| - 1], hashedOnly)
  }

  function TotalBytes(records: seq<ProgressRecord>): nat {
    SizeSum(records, false)
  }

  function HashedBytes(records: seq<ProgressRecord>): nat {
    SizeSum(records, true)
  }

  /** The line the collector prints for a record. */
  function RecordLine(r: ProgressRecord): string {
    FormatLine(r.path, r.hash, r.size)
  }

  /** Everything the collector prints, one line per record in arrival order. */
  function Transcript(records: seq<ProgressRecord>): (lines: seq<string>)
    ensures |lines| == |records| && forall i :: 0 <= i < |records| ==> lines[i] == RecordLine(records[i])
  {
    seq(|records|, i requires 0 <= i < |records| => RecordLine(records[i]))
  }

  lemma {:induction false} SizeSumConcat(u: seq<ProgressRecord>, v: seq<ProgressRecord>, hashedOnly: bool)
    ensures SizeSum(u + v, hashedOnly) == SizeSum(u, hashedOnly) + SizeSum(v, hashedOnly)
    decreases |v|
  {
    if v == [] {
      assert u + v == u;
    } else {
      var w := v[..|v| - 1];
      SizeSumConcat(u, w, hashedOnly);
      assert (u + v)[..|u + v| - 1] == u + w;
    }
  }

  /** A counter never decreases as records arrive. */
  lemma PrefixSizeSum(records: seq<ProgressRecord>, i: nat, hashedOnly: bool)
    requires i <= |records|
    ensures SizeSum(records[..i], hashedOnly) <= SizeSum(records, hashedOnly)
  {
    SizeSumConcat(records[..i], records[i..], hashedOnly);
    assert records[..i] + records[i..] == records;
  }

  /** The bytes hashed in a run are at most the bytes seen. */
  lemma {:induction false} HashedAtMostTotal(records: seq<ProgressRecord>)
    ensures HashedBytes(records) <= TotalBytes(records)
    decreases |records|
  {
    if records != [] {
      HashedAtMostTotal(records[..|records| - 1]);
    }
  }

  /** Every byte of a record that was not previously known is counted as hashed. */
  lemma {:induction false} NothingKnownAllHashed(records: seq<ProgressRecord>)
    requires forall i :: 0 <= i < |records| ==> !records[i].previouslyKnown
    ensures HashedBytes(records) == TotalBytes(records)
    decreases |records|
  {
    if records != [] {
      NothingKnownAllHashed(records[..|records| - 1]);
    }
  }

  /** When every record was previously known, no byte is counted as hashed. */
  lemma {:induction false} AllKnownNothingHashed(records: seq<ProgressRecord>)
    requires forall i :: 0 <= i < |records| ==> records[i].previouslyKnown
    ensures HashedBytes(records) == 0
    decreases |records|
  {
    if records != [] {
      AllKnownNothingHashed(records[..|records| - 1]);
    }
  }

  /** Taking one record out of the middle takes its bytes off the sum. */
  lemma SizeSumRemove(b: seq<ProgressRecord>, k: nat, hashedOnly: bool)
    requires k < |b|
    ensures SizeSum(b, hashedOnly) == SizeSum(b[..k] + b[k + 1..], hashedOnly) + Counted(b[k], hashedOnly)
  {
    SizeSumConcat(b[..k], [b[k]] + b[k + 1..], hashedOnly);
    SizeSumConcat([b[k]], b[k + 1..], hashedOnly);
    SizeSumConcat(b[..k], b[k + 1..], hashedOnly);
    assert b[..k] + ([b[k]] + b[k + 1..]) == b;
    assert [b[k]][..0] == [];
  }

  lemma MultisetRemove(b: seq<ProgressRecord>, k: nat)
    requires k < |b|
    ensures multiset(b[..k] + b[k + 1..]) == multiset(b) - multiset{b[k]}
  {
    assert b == b[..k] + [b[k]] + b[k + 1..];
  }

  /**
   * The counters do not depend on the order in which the workers' records
   * arrive: any rearrangement gives the same sums.
   */
  lemma {:induction false} SizeSumPermutation(a: seq<ProgressRecord>, b: seq<ProgressRecord>, hashedOnly: bool)
    requires multiset(a) == multiset(b)
    ensures SizeSum(a, hashedOnly) == SizeSum(b, hashedOnly)
    decreases |a|
  {
    if a != [] {
      var x := a[|a| - 1];
      var a' := a[..|a| - 1];
      MultisetRemove(a, |a| - 1);
      assert a[..|a| - 1] + a[|a|..] == a';
      assert x in multiset(b);
      var k :| 0 <= k < |b| && b[k] == x;
      MultisetRemove(b, k);
      SizeSumPermutation(a', b[..k] + b[k + 1..], hashedOnly);
      SizeSumRemove(b, k, hashedOnly);
    } else {
      assert |multiset(b)| == 0;
    }
  }

  lemma SizeSumStep(records: seq<ProgressRecord>, i: nat, hashedOnly: bool)
    requires i < |records|
    ensures SizeSum(records[..i + 1], hashedOnly) == SizeSum(records[..i], hashedOnly) + Counted(records[i], hashedOnly)
  {
    assert records[..i + 1][..i] == records[..i];
  }

  /** What one more record adds to the counters, and that they stay within `u64`. */
  lemma CountStep(records: seq<ProgressRecord>, i: nat)
    requires i < |records| && TotalBytes(records) < U64_LIMIT
    ensures TotalBytes(records[..i + 1]) == TotalBytes(records[..i]) + records[i].size < U64_LIMIT
    ensures HashedBytes(records[..i + 1])
         == HashedBytes(records[..i]) + (if records[i].previouslyKnown then 0 else records[i].size)
    ensures HashedBytes(records[..i + 1]) <= TotalBytes(records[..i + 1])
  {
    SizeSumStep(records, i, false);
    SizeSumStep(records, i, true);
    PrefixSizeSum(records, i + 1, false);
    HashedAtMostTotal(records[..i + 1]);
  }

  /** The transcript of one more record is the previous transcript and that record's line. */
  lemma TranscriptStep(records: seq<ProgressRecord>, i: nat)
    requires i < |records|
    ensures Transcript(records[..i + 1]) == Transcript(records[..i]) + [RecordLine(records[i])]
  {
    var longer := Transcript(records[..i + 1]);
    var shorter := Transcript(records[..i]);
    forall k | 0 <= k < i + 1
      ensures longer[k] == (shorter + [RecordLine(records[i])])[k]
    {
      assert records[..i + 1][k] == records[k];
      if k < i {
        assert records[..i][k] == records[k];
      }
    }
  }

  lemma WholePrefix<T>(s: seq<T>)
    ensures s[..|s|] == s
  {
  }

  /** What a sequence of `println!` calls writes: each line followed by a newline. */
  function Join(lines: seq<string>): string
    decreases |lines|
  {
    if lines == [] then []
    else Join(lines[..|lines| - 1]) + lines[|lines| - 1] + "\n"
  }

  /** Everything the collector writes to standard output for the records it received. */
  function Output(records: seq<ProgressRecord>): string {
    Join(Transcript(records))
  }

  /** The `println!` of one record: its line and a newline go after everything printed before it. */
  method PrintRecord(out: string, records: seq<ProgressRecord>, i: nat) returns (printed: string)
    requires i < |records| && out == Output(records[..i])
    ensures printed == Output(records[..i + 1])
  {
    TranscriptStep(records, i);
    var line := RecordLine(records[i]);
    assert Transcript(records[..i + 1])[..i] == Transcript(records[..i]);
    printed := out + line + "\n";
  }

  /**
   * `collector_thread`: counts every record it receives and prints one line
   * for each. The `u64` byte counters must not overflow.
   */
  method CollectorThread(records: seq<ProgressRecord>) returns (stats: Statistics, out: string)
    requires TotalBytes(records) < U64_LIMIT
    ensures stats.totalBytes == TotalBytes(records)
    ensures stats.totalHashedBytes == HashedBytes(records)
    ensures stats.totalFiles == |records|
    ensures out == Output(records)
  {
    var totalBytes: U64 := 0;
    var totalHashedBytes: U64 := 0;
    var totalFiles: nat := 0;
    out := [];
    for i := 0 to |records|
      invariant totalBytes == TotalBytes(records[..i])
      invariant totalHashedBytes == HashedBytes(records[..i])
      invariant totalFiles == i
      invariant out == Output(records[..i])
    {
      var r := records[i];
      CountStep(records, i);
      totalBytes := totalBytes + r.size;
      if !r.previouslyKnown {
        totalHashedBytes := totalHashedBytes + r.size;
      }
      totalFiles := totalFiles + 1;
      out := PrintRecord(out, records, i);
    }
    WholePrefix(records);
    stats := Statistics(totalBytes, totalHashedBytes, totalFiles);
  }

  /** Each printed line reads back, through `split_line`, as its record's path, hash and size. */
  lemma {:induction false} TranscriptReadsBack(records: seq<ProgressRecord>, i: nat)
    requires i < |records| && Readable(records[i].path, records[i].hash)
    ensures SplitLine(Transcript(records)[i]) == Some((records[i].path, CacheEntry(records[i].hash, records[i].size)))
  {
    ReadFormatLine(records[i].path, records[i].hash, records[i].size);
  }

  // ===========================================================================
  // load_from
  // ===========================================================================

  /** Whether a line ends with a carriage return. */
  predicate EndsWithCr(line: string) {
    |line| > 0 && line[|line| - 1] == '\r'
  }

  /** A line that `BufRead::lines` gives back unchanged: no newline inside, no carriage return at its end. */
  predicate PlainLine(line: string) {
    '\n' !in line && !EndsWithCr(line)
  }

  /** `BufRead::lines` drops one carriage return before the newline. */
  function StripCr(line: string): string {
    if EndsWithCr(line) then line[..|line| - 1] else line
  }

  /**
   * `BufRead::lines`: the text is cut after each newline, and a line cut
   * there loses the newline and a carriage return before it; a last line
   * without a newline is kept as it is, and the empty text has no lines.
   */
  function Lines(text: string): seq<string>
    decreases |text|
  {
    if text == [] then []
    else
      match SplitOnce(text, "\n")
      case Some((line, rest)) => [StripCr(line)] + Lines(rest)
      case None => [text]
  }

  lemma {:induction false} JoinCons(line: string, lines: seq<string>)
    ensures Join([line] + lines) == line + "\n" + Join(lines)
    decreases |lines|
  {
    if lines == [] {
      assert [line] + lines == [line];
      assert [line][..0] == [];
    } else {
      var front := lines[..|lines| - 1];
      var last := lines[|lines| - 1];
      assert ([line] + lines)[..|lines|] == [line] + front;
      JoinCons(line, front);
    }
  }

  /** Lines written by `println!` are read back one for one, if none holds a line break. */
  lemma {:induction false} LinesOfJoin(lines: seq<string>)
    requires forall i :: 0 <= i < |lines| ==> PlainLine(lines[i])
    ensures Lines(Join(lines)) == lines
    decreases |lines|
  {
    if lines != [] {
      var rest := lines[1..];
      assert lines == [lines[0]] + rest;
      JoinCons(lines[0], rest);
      SplitAtChar(lines[0], '\n', Join(rest));
      assert PlainLine(lines[0]);
      LinesOfJoin(rest);
    }
  }

  /** What `split_line` makes of each line of a previous run's output. */
  function Parsed(lines: seq<string>): (r: seq<Option<(string, CacheEntry)>>)
    ensures |r| == |lines| && forall i :: 0 <= i < |lines| ==> r[i] == SplitLine(lines[i])
  {
    seq(|lines|, i requires 0 <= i < |lines| => SplitLine(lines[i]))
  }

  /** The cache built from read lines, in order: each entry replaces the one for its path. */
  function Insert(entries: seq<Option<(string, CacheEntry)>>): Db
    decreases |entries|
  {
    if entries == [] then map[]
    else
      var db := Insert(entries[..|entries| - 1]);
      match entries[|entries| - 1]
      case None => db
      case Some((path, e)) => db[path := e]
  }

  /** The cache `load_from` builds from a previous run's lines; unreadable lines are skipped. */
  function LoadLines(lines: seq<string>): Db {
    Insert(Parsed(lines))
  }

  /** Whether entry `i` is one for `path`. */
  predicate EntryFor(entries: seq<Option<(string, CacheEntry)>>, i: nat, path: string)
    requires i < |entries|
  {
    entries[i].Some? && entries[i].value.0 == path
  }

  /** A path is in the cache exactly when some line reads as an entry for it. */
  lemma {:induction false} InsertKeys(entries: seq<Option<(string, CacheEntry)>>, path: string)
    ensures path in Insert(entries) <==> exists i :: 0 <= i < |entries| && EntryFor(entries, i, path)
    decreases |entries|
  {
    if entries != [] {
      var n := |entries| - 1;
      var front := entries[..n];
      InsertKeys(front, path);
      if exists i :: 0 <= i < |front| && EntryFor(front, i, path) {
        var i :| 0 <= i < |front| && EntryFor(front, i, path);
        assert EntryFor(entries, i, path);
      }
      if EntryFor(entries, n, path) {
        assert path in Insert(entries);
      }
      if exists i :: 0 <= i < |entries| && EntryFor(entries, i, path) {
        var i :| 0 <= i < |entries| && EntryFor(entries, i, path);
        if i < n {
          assert EntryFor(front, i, path);
        }
      }
    }
  }

  /** The entry for a path comes from the last line that reads as an entry for it. */
  lemma {:induction false} LastEntryWins(entries: seq<Option<(string, CacheEntry)>>, i: nat, path: string, e: CacheEntry)
    requires i < |entries| && entries[i] == Some((path, e))
    requires forall j :: i < j < |entries| ==> !EntryFor(entries, j, path)
    ensures path in Insert(entries) && Insert(entries)[path] == e
    decreases |entries|
  {
    var n := |entries| - 1;
    var front := entries[..n];
    if i < n {
      forall j | i < j < |front| ensures !EntryFor(front, j, path) {
        assert !EntryFor(entries, j, path);
      }
      LastEntryWins(front, i, path, e);
      assert !EntryFor(entries, n, path);
    }
  }

  /** Reading one more line inserts its entry, if it has one, into the cache built so far. */
  lemma InsertStep(lines: seq<string>, i: nat)
    requires i < |lines|
    ensures Insert(Parsed(lines)[..i + 1]) ==
      match SplitLine(lines[i])
      case None => Insert(Parsed(lines)[..i])
      case Some((path, e)) => Insert(Parsed(lines)[..i])[path := e]
  {
    assert Parsed(lines)[..i + 1][..i] == Parsed(lines)[..i];
  }

  /** Where a previous run's output comes from: not asked for, a file that cannot be read, or its text. */
  datatype LoadSource = NotRequested | Unreadable | Read(text: string)

  /**
   * `load_from`: no `--load` gives an empty cache; a file that cannot be
   * opened or read fails the run; otherwise every line of the text is
   * offered to `split_line` in order.
   */
  method LoadFrom(source: LoadSource) returns (r: Result<Db, ()>)
    ensures source.NotRequested? ==> r == Ok(map[])
    ensures source.Unreadable? ==> r.Err?
    ensures source.Read? ==> r == Ok(LoadLines(Lines(source.text)))
  {
    match source {
      case NotRequested => return Ok(map[]);
      case Unreadable => return Err(());
      case Read(text) =>
        var lines := Lines(text);
        var hm: Db := map[];
        for i := 0 to |lines|
          invariant hm == Insert(Parsed(lines)[..i])
        {
          InsertStep(lines, i);
          match SplitLine(lines[i]) {
            case Some((path, e)) => hm := hm[path := e];
            case None =>
          }
        }
        WholePrefix(Parsed(lines));
        return Ok(hm);
    }
  }

  // ===========================================================================
  // A second run over the first run's output
  // ===========================================================================

  predicate DistinctPaths(files: seq<ScannedFile>) {
    forall i, j :: 0 <= i < j < |files| ==> files[i].path != files[j].path
  }

  /**
   * A record whose line survives the round through standard output: it is
   * Readable, and neither path nor hash holds a newline, nor does the path
   * end with a carriage return.
   */
  predicate Reloadable(path: string, hash: Option<string>) {
    Readable(path, hash) && '\n' !in path && !EndsWithCr(path) && (hash.Some? ==> '\n' !in hash.value)
  }

  /** The line of a Reloadable record is a plain line. */
  lemma RecordLinePlain(path: string, hash: Option<string>, size: U64)
    requires Reloadable(path, hash)
    ensures PlainLine(FormatLine(path, hash, size))
  {
    var lead := PadLeft(Dec(size), 12);
    var tail := Tail(path, hash);
    var line := FormatLine(path, hash, size);
    PaddedSizeChars(size, 12, '\n');
    assert '\n' !in tail by {
      if hash.Some? {
        assert tail == hash.value + " " + path;
      }
    }
    assert line == lead + BytesSep + tail;
    forall i | 0 <= i < |line| ensures line[i] != '\n' {
      if i < |lead| {
        assert line[i] == lead[i];
      } else if i >= |lead| + |BytesSep| {
        assert line[i] == tail[i - |lead| - |BytesSep|];
      }
    }
    if path != [] {
      assert line[|line| - 1] == path[|path| - 1] by {
        if hash.Some? {
          assert tail == (hash.value + " ") + path;
        }
      }
    } else if hash.Some? {
      assert tail == hash.value + " ";
      assert line[|line| - 1] == ' ';
    } else {
      assert line == lead + BytesSep;
      assert line[|line| - 1] == ' ';
    }
  }

  /** The lines a previous run wrote, as `load_from` reads them from its saved output. */
  lemma ReloadedLines(records: seq<ProgressRecord>)
    requires forall j :: 0 <= j < |records| ==> Reloadable(records[j].path, records[j].hash)
    ensures Lines(Output(records)) == Transcript(records)
  {
    var lines := Transcript(records);
    forall j | 0 <= j < |lines| ensures PlainLine(lines[j]) {
      RecordLinePlain(records[j].path, records[j].hash, records[j].size);
    }
    LinesOfJoin(lines);
  }

  /** The cache the second run loads holds, for each file, the hash and size the first run printed. */
  lemma {:induction false} ReloadedEntry(records: seq<ProgressRecord>, i: nat)
    requires i < |records|
    requires forall j :: 0 <= j < |records| ==> Reloadable(records[j].path, records[j].hash)
    requires forall j, k :: 0 <= j < k < |records| ==> records[j].path != records[k].path
    ensures records[i].path in LoadLines(Lines(Output(records)))
    ensures LoadLines(Lines(Output(records)))[records[i].path] == CacheEntry(records[i].hash, records[i].size)
  {
    ReloadedLines(records);
    var entries := Parsed(Transcript(records));
    TranscriptReadsBack(records, i);
    forall j | i < j < |entries| ensures !EntryFor(entries, j, records[i].path) {
      TranscriptReadsBack(records, j);
    }
    LastEntryWins(entries, i, records[i].path, CacheEntry(records[i].hash, records[i].size));
  }

  /**
   * Running again over the same files with the first run's output loaded
   * reuses every hash the first run printed: those files are reported as
   * previously known, with the same hash, whatever the hasher would now say.
   * The first run is one in which every file got a hash, so `hash_file`
   * printed no failure message into that output.
   */
  lemma {:induction false} SecondRunReuses(files: seq<ScannedFile>, db0: Db, hash1: string -> Option<string>, hash2: string -> Option<string>)
    requires DistinctPaths(files)
    requires forall i :: 0 <= i < |files| ==>
      MakeHashes(true, db0, files, hash1)[i].hash.Some?
      && Reloadable(files[i].path, MakeHashes(true, db0, files, hash1)[i].hash)
    ensures var first := MakeHashes(true, db0, files, hash1);
      var second := MakeHashes(true, LoadLines(Lines(Output(first))), files, hash2);
      forall i :: 0 <= i < |files| ==> second[i] == first[i].(previouslyKnown := true)
  {
    var first := MakeHashes(true, db0, files, hash1);
    var db1 := LoadLines(Lines(Output(first)));
    forall i | 0 <= i < |files|
      ensures HashOne(true, db1, files[i], hash2) == first[i].(previouslyKnown := true)
    {
      ReloadedEntry(first, i);
    }
  }

  /** If the first run hashed every file, the second hashes no byte at all. */
  lemma {:induction false} SecondRunHashesNothing(files: seq<ScannedFile>, db0: Db, hash1: string -> Option<string>, hash2: string -> Option<string>)
    requires DistinctPaths(files)
    requires forall i :: 0 <= i < |files| ==>
      MakeHashes(true, db0, files, hash1)[i].hash.Some?
      && Reloadable(files[i].path, MakeHashes(true, db0, files, hash1)[i].hash)
    ensures HashedBytes(MakeHashes(true, LoadLines(Lines(Output(MakeHashes(true, db0, files, hash1)))), files, hash2)) == 0
  {
    SecondRunReuses(files, db0, hash1, hash2);
    AllKnownNothingHashed(MakeHashes(true, LoadLines(Lines(Output(MakeHashes(true, db0, files, hash1)))), files, hash2));
  }

  /**
   * `hash_file` reports a file it cannot open or read with `print!`, which
   * writes no newline, so the message (starting with `Failed`) runs into the
   * next line on standard output. `split_line` rejects the joined line, and
   * the file that line was for gets no cache entry from it.
   */
  lemma GluedLineRejected(message: string, line: string)
    requires message != [] && !IsWhitespace(message[0]) && !IsDigit(message[0]) && message[0] != '+'
    ensures SplitLine(message + line) == None
  {
    var s := message + line;
    if Contains(s, BytesSep) {
      var a := SplitOnce(s, BytesSep).value.0;
      if a != [] {
        assert a[0] == s[0] == message[0];
        LeadNotNumber(a);
      }
    }
  }

  /** Text that starts with neither whitespace, a digit nor `+` does not trim to a `u64`. */
  lemma LeadNotNumber(a: string)
    requires a != [] && !IsWhitespace(a[0]) && !IsDigit(a[0]) && a[0] != '+'
    ensures ParseU64(Trim(a)) == None
  {
    assert TrimStart(a) == a;
    var t := TrimEnd(a);
    if t != [] {
      assert t[0] == a[0];
      assert !AllDigits(t);
    }
  }
}
