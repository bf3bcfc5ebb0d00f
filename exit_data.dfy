/**
 * The exit-data table: the catalog record `filename_tstamp`, the class `ExitData` that owns the
 * loaded table `values`, and its loader `loadExitData`, which sniffs the number of columns from
 * line 1 and then cuts the numbers that follow into zero-initialised rows of that width.
 */
module ExitTable {
  import opened IoStreams

  /** `size_t`: 64-bit unsigned. */
  newtype SizeT = x: int | 0 <= x < 0x1_0000_0000_0000_0000

  /** `filename_tstamp`: a file's full path and its modification time, which is the sort key. */
  datatype FileEntry = FileEntry(filename: string, tstamp: SizeT)

  /**
   * An exit-data file as the loader reads it. `firstLine` holds the tokens of line 1. When line 1
   * ends in '\n' (`Lines`), everything after it is one token stream, `body`, in which line breaks
   * are only whitespace, and `endsInToken` says whether the file ends directly after its last
   * token (no final newline). Otherwise the whole file is its first line (`OnlyLine`).
   */
  datatype ExitFile =
    | OnlyLine(firstLine: seq<Token>)
    | Lines(firstLine: seq<Token>, body: seq<Token>, endsInToken: bool)

  /** The stream that `getline` leaves after consuming line 1: at end of file when line 1 had no '\n'. */
  function AfterFirstLine(f: ExitFile): InStream
  {
    match f
    case OnlyLine(_) => InStream([], false, 0, true, false)
    case Lines(_, body, e) => InStream(body, e, 0, false, false)
  }

  /** `COLS`: how many leading tokens of line 1 read as numbers. */
  function Columns(f: ExitFile): nat
  {
    NumericPrefix(f.firstLine)
  }

  /** The numbers the row loop can read: those after line 1, up to the first token that is not one. */
  function BodyNumbers(f: ExitFile): seq<real>
  {
    Numbers(AfterFirstLine(f).tokens)
  }

  /** Reading the last number of the file also reaches end of file, so no read after it is attempted. */
  predicate EndsOnNumber(f: ExitFile)
  {
    f.Lines? && f.endsInToken && 0 < |f.body| == NumericPrefix(f.body)
  }

  /** The row `vector<double>(n)`: n entries of 0.0. */
  function Zeros(n: nat): (z: seq<real>)
    ensures |z| == n
    ensures forall k :: 0 <= k < n ==> z[k] == 0.0
  {
    seq(n, k => 0.0)
  }

  /** Entry `p` of the number stream, or the 0.0 a fresh row holds where nothing could be read. */
  function Field(nums: seq<real>, p: nat): real
  {
    if p < |nums| then nums[p] else 0.0
  }

  /** Row `r` of a table `cols` wide cut from `nums`. */
  function Row(nums: seq<real>, cols: nat, r: nat): seq<real>
  {
    seq(cols, j requires 0 <= j < cols => Field(nums, r * cols + j))
  }

  function Table(nums: seq<real>, cols: nat, count: nat): seq<seq<real>>
  {
    seq(count, r requires 0 <= r < count => Row(nums, cols, r))
  }

  /**
   * How many rows the do-while pushes for `n` numbers: one per `cols` numbers read, plus the row
   * on which a read fails, unless the file ends exactly after a complete row's last number.
   */
  function RowCount(n: nat, cols: nat, endsOnNumber: bool): nat
    requires cols > 0
  {
    if endsOnNumber && n % cols == 0 then n / cols else n / cols + 1
  }

  /** What loading a file yields: the column count and the rows, or a row loop that never ends. */
  datatype Parse = Parsed(cols: nat, rows: seq<seq<real>>) | Diverges

  /**
   * The table `loadExitData` builds from a file. With no column and a stream still good after
   * line 1 the do-while never stops, pushing empty rows.
   */
  function ParseExitFile(f: ExitFile): (p: Parse)
    ensures p.Diverges? <==> f.Lines? && Columns(f) == 0
    ensures p.Parsed? ==> p.cols == Columns(f) && |p.rows| >= 1
    ensures p.Parsed? ==> forall r :: 0 <= r < |p.rows| ==> |p.rows[r]| == p.cols
  {
    var cols := Columns(f);
    if cols == 0 then
      if f.Lines? then Diverges else Parsed(0, Table([], 0, 1))
    else
      var nums := BodyNumbers(f);
      Parsed(cols, Table(nums, cols, RowCount(|nums|, cols, EndsOnNumber(f))))
  }

  /**
   * The column sniff: `while (stream1 >> temp_num) cnt++;` over line 1. The result is the count of
   * leading numeric tokens: all before it are numbers and the one at it, if any, is not.
   */
  method CountColumns(line: seq<Token>) returns (cnt: nat)
    ensures cnt <= |line|
    ensures forall k :: 0 <= k < cnt ==> line[k].Num?
    ensures cnt < |line| ==> line[cnt] == NotNum
    ensures cnt == NumericPrefix(line)
  {
    // whether the line's text ends directly in its last token does not change the count
    var stream1 := InStream(line, true, 0, false, false);
    cnt := 0;
    while true
      invariant stream1.tokens == line && stream1.endsInToken && !stream1.fail
      invariant stream1.pos == cnt <= |line|
      invariant forall k :: 0 <= k < cnt ==> line[k].Num?
      invariant stream1.eof ==> cnt == |line|
      decreases |line| - cnt
    {
      var r := Extract(stream1);
      stream1 := r.0;
      if r.1.None? {
        break;
      }
      cnt := cnt + 1;
    }
  }

  /**
   * What holds of the loader's stream between reads: it has read numbers only, its failbit is
   * clear, and its eofbit is set exactly when a read (or line 1) reached end of file.
   */
  ghost predicate ReadingBody(f: ExitFile, s: InStream)
  {
    && s.tokens == AfterFirstLine(f).tokens
    && s.endsInToken == AfterFirstLine(f).endsInToken
    && s.pos <= |BodyNumbers(f)| && !s.fail
    && (s.eof ==> s.pos == |s.tokens| && (s.pos > 0 ==> s.endsInToken))
    && (0 < s.pos == |s.tokens| && s.endsInToken ==> s.eof)
  }

  /** One `>>` of the row loop: it fails exactly at the end of the body's numbers, else yields the next one. */
  lemma ReadStep(f: ExitFile, s: InStream)
    requires ReadingBody(f, s)
    ensures Extract(s).1.None? ==> s.pos == |BodyNumbers(f)| && Extract(s).0.pos == s.pos
    ensures Extract(s).1.Some? ==>
      && s.pos < |BodyNumbers(f)| && Extract(s).1.value == BodyNumbers(f)[s.pos]
      && ReadingBody(f, Extract(s).0) && Extract(s).0.pos == s.pos + 1
  {
  }

  /** Row `r` filled in its first `j` columns, zero in the rest. */
  ghost predicate PartialRow(nums: seq<real>, cols: nat, r: nat, j: nat, row: seq<real>)
  {
    && |row| == cols
    && forall jj :: 0 <= jj < cols ==> row[jj] == if jj < j then Field(nums, r * cols + jj) else 0.0
  }

  lemma PartialRowStep(nums: seq<real>, cols: nat, r: nat, j: nat, row: seq<real>, v: real)
    requires PartialRow(nums, cols, r, j, row) && j < cols && v == Field(nums, r * cols + j)
    ensures PartialRow(nums, cols, r, j + 1, row[j := v])
  {
  }

  lemma FilledRow(nums: seq<real>, cols: nat, r: nat, j: nat, row: seq<real>)
    requires PartialRow(nums, cols, r, j, row)
    requires j == cols || r * cols + j >= |nums|
    ensures row == Row(nums, cols, r)
  {
    forall jj | 0 <= jj < cols
      ensures row[jj] == Row(nums, cols, r)[jj]
    {
      assert Row(nums, cols, r)[jj] == Field(nums, r * cols + jj);
      if j <= jj {
        assert r * cols + jj >= |nums|;
      }
    }
  }

  lemma TableSnoc(nums: seq<real>, cols: nat, count: nat)
    ensures Table(nums, cols, count) + [Row(nums, cols, count)] == Table(nums, cols, count + 1)
  {
  }

  /**
   * The row loop stops after row `r` (read from `rowStart`, `j` of its numbers obtained): that is
   * the last row `ParseExitFile` counts.
   */
  lemma RowCountAt(f: ExitFile, rowStart: InStream, r: nat, j: nat)
    requires Columns(f) > 0 && ReadingBody(f, rowStart) && rowStart.pos == r * Columns(f)
    requires r > 0 ==> Good(rowStart)
    requires j <= Columns(f) && r * Columns(f) + j <= |BodyNumbers(f)|
    requires j < Columns(f) ==> r * Columns(f) + j == |BodyNumbers(f)|
    requires j == Columns(f) ==> r * Columns(f) + j == |AfterFirstLine(f).tokens| > 0 && f.Lines? && f.endsInToken
    ensures RowCount(|BodyNumbers(f)|, Columns(f), EndsOnNumber(f)) == r + 1
  {
    var c, n := Columns(f), |BodyNumbers(f)|;
    if j < c {
      DivModOf(n, c, r, j);
    } else {
      assert (r + 1) * c == r * c + c;
      DivModOf(n, c, r + 1, 0);
    }
  }

  /**
   * The end of one pass of the do-while: row `r` is complete (all `cols` reads succeeded) or the
   * read of its column `j` failed; the table now has `r + 1` rows, and when the stream is no longer
   * good they are all the rows of the file.
   */
  lemma RowDone(f: ExitFile, cols: nat, rowStart: InStream, s: InStream, r: nat, j: nat, values: seq<seq<real>>)
    requires cols == Columns(f) && ReadingBody(f, rowStart) && rowStart.pos == r * cols
    requires r > 0 ==> Good(rowStart)
    requires r == 0 ==> rowStart == AfterFirstLine(f)
    requires cols == 0 ==> !Good(AfterFirstLine(f)) && r == 0
    requires j <= cols && |values| == r + 1 && values[..r] == Table(BodyNumbers(f), cols, r)
    requires PartialRow(BodyNumbers(f), cols, r, j, values[r])
    requires || (j == cols && ReadingBody(f, s) && s.pos == r * cols + j && (j == 0 ==> s == rowStart))
             || (j < cols && s.fail && r * cols + j == |BodyNumbers(f)|)
    ensures values == Table(BodyNumbers(f), cols, r + 1)
    ensures Good(s) ==> cols > 0 && ReadingBody(f, s) && s.pos == (r + 1) * cols
    ensures !Good(s) ==> ParseExitFile(f).Parsed? && values == ParseExitFile(f).rows
  {
    var nums := BodyNumbers(f);
    FilledRow(nums, cols, r, j, values[r]);
    TableSnoc(nums, cols, r);
    assert values == values[..r] + [values[r]];
    if !Good(s) {
      if cols > 0 {
        RowCountAt(f, rowStart, r, j);
        assert ParseExitFile(f) == Parsed(cols, Table(nums, cols, r + 1));
      } else {
        assert f.OnlyLine? && nums == [];
      }
    } else {
      assert cols > 0;
      assert s.pos == (r + 1) * cols == r * cols + cols;
    }
  }

  /** Quotient and remainder are determined by `n == q * c + m` with `0 <= m < c`. */
  lemma DivModOf(n: int, c: int, q: int, m: int)
    requires c > 0 && 0 <= m < c && n == q * c + m
    ensures n / c == q && n % c == m
  {
    var q', m' := n / c, n % c;
    assert (q - q') * c == m' - m;
    if q > q' {
      MulAtLeast(q - q', c);
    } else if q < q' {
      MulAtLeast(q' - q, c);
    }
  }

  lemma {:induction false} MulAtLeast(d: int, c: int)
    requires d >= 1 && c > 0
    ensures d * c >= c
    decreases d
  {
    if d > 1 {
      MulAtLeast(d - 1, c);
      assert d * c == (d - 1) * c + c;
    }
  }

  /** Every row but the last is the next `cols` numbers after line 1, in order. */
  lemma FullRowsAreChunks(f: ExitFile, r: nat)
    requires ParseExitFile(f).Parsed? && Columns(f) > 0
    requires r + 1 < |ParseExitFile(f).rows|
    ensures r * Columns(f) + Columns(f) <= |BodyNumbers(f)|
    ensures ParseExitFile(f).rows[r] == BodyNumbers(f)[r * Columns(f) .. r * Columns(f) + Columns(f)]
  {
    var c, nums := Columns(f), BodyNumbers(f);
    var n := |nums|;
    DivModOf(n, c, n / c, n % c);
    MulMonotone(r + 1, n / c, c);
    assert (r + 1) * c == r * c + c;
    var row := ParseExitFile(f).rows[r];
    forall j | 0 <= j < c
      ensures row[j] == nums[r * c .. r * c + c][j]
    {
      assert row[j] == Field(nums, r * c + j);
    }
  }

  /**
   * The last row holds the numbers left after the full rows, then zeros. It is full exactly when
   * the file ends right after a full row's last number, and holds no number at all exactly when
   * the numbers filled the rows before it and the file went on (a final newline, say).
   */
  lemma LastRowIsPaddedTail(f: ExitFile)
    requires ParseExitFile(f).Parsed? && Columns(f) > 0
    ensures var rows, c, nums := ParseExitFile(f).rows, Columns(f), BodyNumbers(f);
      var k := (|rows| - 1) * c;
      && k <= |nums| <= k + c
      && rows[|rows| - 1] == nums[k..] + Zeros(k + c - |nums|)
      && (|nums| == k + c <==> EndsOnNumber(f) && |nums| % c == 0)
      && (|nums| == k <==> !EndsOnNumber(f) && |nums| % c == 0)
  {
    var rows, c, nums := ParseExitFile(f).rows, Columns(f), BodyNumbers(f);
    LastRowStart(|nums|, c, EndsOnNumber(f));
    LastRowOfTable(nums, c, |rows|);
  }

  /** Where the last row starts, for `n` numbers in rows of `c`. */
  lemma LastRowStart(n: nat, c: nat, endsOnNumber: bool)
    requires c > 0 && (endsOnNumber ==> n > 0)
    ensures RowCount(n, c, endsOnNumber) >= 1
    ensures var k := (RowCount(n, c, endsOnNumber) - 1) * c;
      && k <= n <= k + c
      && (n == k + c <==> endsOnNumber && n % c == 0)
      && (n == k <==> !endsOnNumber && n % c == 0)
  {
    var q, m := n / c, n % c;
    DivModOf(n, c, q, m);
    if endsOnNumber && m == 0 {
      assert (q - 1) * c == q * c - c;
    }
  }

  /** The last of `count` rows, when its start `k` leaves at most one row's worth of numbers. */
  lemma LastRowOfTable(nums: seq<real>, c: nat, count: nat)
    requires count >= 1 && (count - 1) * c <= |nums| <= (count - 1) * c + c
    ensures var k := (count - 1) * c;
      Table(nums, c, count)[count - 1] == nums[k..] + Zeros(k + c - |nums|)
  {
    var k := (count - 1) * c;
    var last := Table(nums, c, count)[count - 1];
    forall j | 0 <= j < c
      ensures last[j] == (nums[k..] + Zeros(k + c - |nums|))[j]
    {
      assert last[j] == Field(nums, k + j);
    }
  }

  /** The values on line 1 are never stored: only how many of them are numbers matters. */
  lemma FirstLineOnlyCounts(f: ExitFile, g: ExitFile)
    requires Columns(f) == Columns(g) && f.OnlyLine? == g.OnlyLine?
    requires f.Lines? ==> f.body == g.body && f.endsInToken == g.endsInToken
    ensures ParseExitFile(f) == ParseExitFile(g)
  {
  }

  /** A run of numbers reads in full: all of it counts, and its values come out in order. */
  lemma {:induction false} AllNumbers(vs: seq<real>, rest: seq<Token>)
    requires rest == [] || rest[0] == NotNum
    ensures NumericPrefix(seq(|vs|, k requires 0 <= k < |vs| => Num(vs[k])) + rest) == |vs|
    ensures Numbers(seq(|vs|, k requires 0 <= k < |vs| => Num(vs[k])) + rest) == vs
  {
    var ts := seq(|vs|, k requires 0 <= k < |vs| => Num(vs[k])) + rest;
    if vs != [] {
      AllNumbers(vs[1..], rest);
      assert ts[1..] == seq(|vs[1..]|, k requires 0 <= k < |vs[1..]| => Num(vs[1..][k])) + rest;
    } else {
      assert ts == rest;
    }
  }

  /** Worked case: a header of three numbers, then five numbers ending the file. */
  const ShortLastRowFile: ExitFile :=
    Lines([Num(1.0), Num(2.0), Num(3.0)], [Num(4.0), Num(5.0), Num(6.0), Num(7.0), Num(8.0)], true)

  lemma ExampleNumbers()
    ensures Columns(ShortLastRowFile) == 3
    ensures BodyNumbers(ShortLastRowFile) == [4.0, 5.0, 6.0, 7.0, 8.0] && EndsOnNumber(ShortLastRowFile)
  {
    AllNumbers([1.0, 2.0, 3.0], []);
    AllNumbers([4.0, 5.0, 6.0, 7.0, 8.0], []);
    assert ShortLastRowFile.firstLine == seq(3, k requires 0 <= k < 3 => Num([1.0, 2.0, 3.0][k])) + [];
    assert ShortLastRowFile.body == seq(5, k requires 0 <= k < 5 => Num([4.0, 5.0, 6.0, 7.0, 8.0][k])) + [];
  }

  /** The second row is the last two numbers and a zero that no read reached. */
  lemma ExampleShortLastRow()
    ensures ParseExitFile(ShortLastRowFile) == Parsed(3, [[4.0, 5.0, 6.0], [7.0, 8.0, 0.0]])
  {
    ExampleNumbers();
    var nums := BodyNumbers(ShortLastRowFile);
    var rows := ParseExitFile(ShortLastRowFile).rows;
    FullRowsAreChunks(ShortLastRowFile, 0);
    LastRowIsPaddedTail(ShortLastRowFile);
    assert rows[0] == nums[0..3] == [4.0, 5.0, 6.0];
    assert rows[1] == nums[3..] + Zeros(1) == [7.0, 8.0, 0.0];
  }

  lemma MulMonotone(a: nat, b: nat, c: nat)
    requires a <= b
    ensures a * c <= b * c
  {
  }

  /** An `ifstream` member: closed, or open on a named file at some stream state. */
  datatype FileStream = Closed | Open(name: string, s: InStream)

  /** How `loadExitData` ends: the table is loaded, `exit(1)` because the file would not open, or never. */
  datatype LoadOutcome = Loaded | CouldNotOpen | Hangs

  class ExitData {
    /** The loaded table, one row per exit photon. */
    var values: seq<seq<real>>
    /** The catalog of data files; none of the code modelled here fills it. */
    var files: seq<FileEntry>
    /** The one input stream the object owns. */
    var exitFileStream: FileStream
    /** The capacity `values` was reserved with; it never bounds the table. */
    var reserved: nat

    /** `reserve` sets capacity only: the table starts empty. */
    constructor (numDetectedPhotons: int)
      requires numDetectedPhotons >= 0
      ensures values == [] && files == [] && exitFileStream == Closed
      ensures reserved == numDetectedPhotons
    {
      values := [];
      files := [];
      exitFileStream := Closed;
      reserved := numDetectedPhotons;
    }

    /** `Get_num_files`. */
    function NumFiles(): nat
      reads this
    {
      |files|
    }

    /**
     * One pass of the do-while in `loadExitData`: push row `i` as `cols` zeros, then read into its
     * columns in turn until a read fails. Returns how many columns were read.
     */
    method ReadRow(ghost f: ExitFile, cols: nat, i: nat) returns (j: nat)
      requires exitFileStream.Open? && ReadingBody(f, exitFileStream.s)
      requires exitFileStream.s.pos == i * cols && values == Table(BodyNumbers(f), cols, i)
      modifies this
      ensures files == old(files) && reserved == old(reserved)
      ensures exitFileStream.Open? && exitFileStream.name == old(exitFileStream.name)
      ensures exitFileStream.s.tokens == old(exitFileStream.s.tokens)
      ensures j <= cols && |values| == i + 1 && values[..i] == old(values)
      ensures PartialRow(BodyNumbers(f), cols, i, j, values[i])
      ensures || (j == cols && ReadingBody(f, exitFileStream.s) && exitFileStream.s.pos == i * cols + j
                  && (j == 0 ==> exitFileStream.s == old(exitFileStream.s)))
              || (j < cols && exitFileStream.s.fail && i * cols + j == |BodyNumbers(f)|)
    {
      ghost var nums := BodyNumbers(f);
      ghost var rowStart := exitFileStream.s;
      values := values + [Zeros(cols)];
      j := 0;
      while j < cols
        invariant 0 <= j <= cols
        invariant files == old(files) && reserved == old(reserved)
        invariant exitFileStream.Open? && exitFileStream.name == old(exitFileStream.name)
        invariant ReadingBody(f, exitFileStream.s)
        invariant exitFileStream.s.pos == i * cols + j
        invariant |values| == i + 1 && values[..i] == old(values)
        invariant PartialRow(nums, cols, i, j, values[i])
        invariant j == 0 ==> exitFileStream.s == rowStart
      {
        ReadStep(f, exitFileStream.s);
        var r := Extract(exitFileStream.s);
        exitFileStream := exitFileStream.(s := r.0);
        if r.1.None? {
          break;
        }
        PartialRowStep(nums, cols, i, j, values[i], r.1.value);
        values := values[i := values[i][j := r.1.value]];
        j := j + 1;
      }
    }

    /**
     * `loadExitData(filename)`, with the file system given as `disk`. An open stream is closed
     * first; a file that does not open ends the run with the table untouched. Otherwise the table
     * is replaced by exactly the rows of that one file.
     */
    method LoadExitData(disk: map<string, ExitFile>, filename: string) returns (outcome: LoadOutcome)
      modifies this
      ensures files == old(files) && reserved == old(reserved)
      ensures filename !in disk ==> outcome == CouldNotOpen && exitFileStream == Closed && values == old(values)
      ensures filename in disk && ParseExitFile(disk[filename]).Diverges? ==> outcome == Hangs && values == []
      ensures filename in disk && ParseExitFile(disk[filename]).Parsed? ==>
        && outcome == Loaded
        && values == ParseExitFile(disk[filename]).rows
        && exitFileStream.Open? && exitFileStream.name == filename && !Good(exitFileStream.s)
    {
      if exitFileStream.Open? {
        exitFileStream := Closed;
      }
      if filename !in disk {
        return CouldNotOpen;
      }
      var file := disk[filename];
      // open, then getline consumes line 1, whose tokens serve only to count the columns
      exitFileStream := Open(filename, AfterFirstLine(file));
      var cols := CountColumns(file.firstLine);
      values := [];
      if cols == 0 && Good(exitFileStream.s) {
        // every pass of the do-while below would push an empty row and read nothing
        return Hangs;
      }
      ghost var nums := BodyNumbers(file);
      var i := 0;
      var more := true;
      while more
        invariant files == old(files) && reserved == old(reserved)
        invariant exitFileStream.Open? && exitFileStream.name == filename
        invariant exitFileStream.s.tokens == AfterFirstLine(file).tokens
        invariant more ==> ReadingBody(file, exitFileStream.s)
        invariant more ==> values == Table(nums, cols, i) && exitFileStream.s.pos == i * cols
        invariant more && i > 0 ==> Good(exitFileStream.s)
        invariant more && i == 0 ==> exitFileStream.s == AfterFirstLine(file)
        invariant cols == 0 ==> !Good(AfterFirstLine(file)) && (more ==> i == 0)
        invariant !more ==> ParseExitFile(file).Parsed? && values == ParseExitFile(file).rows
        invariant !more ==> !Good(exitFileStream.s)
        decreases more, |AfterFirstLine(file).tokens| - exitFileStream.s.pos
      {
        ghost var rowStart := exitFileStream.s;
        var j := ReadRow(file, cols, i);
        RowDone(file, cols, rowStart, exitFileStream.s, i, j, values);
        i := i + 1;
        more := Good(exitFileStream.s);
      }
      outcome := Loaded;
    }
  }
}
