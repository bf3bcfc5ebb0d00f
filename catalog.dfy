/**
 * The data-file catalog of main.cpp: scan the data directory, keep the regular files other than
 * the seeds file with their modification times, sort them by time stamp, and count the lines of
 * the earliest one (`Load_detected_photons_from_file`, `SortFunction`, `Get_num_detected_photons`).
 */
module Catalog {
  import opened IoStreams
  import opened ExitTable

  const DataDirectory: string := "../AO-KWave-MCBoost/Data"
  /** The photon generator's seeds, kept in the data directory but not a time step. */
  const SeedsFile: string := "seeds_for_exit.dat"

  /** `SortFunction`: strictly earlier time stamp. */
  predicate SortFunction(a: FileEntry, b: FileEntry)
  {
    a.tstamp < b.tstamp
  }

  /**
   * `SortFunction` is what `std::sort` demands of a comparator, a strict weak ordering (irreflexive,
   * transitive, with transitive incomparability), and only the time stamps decide it.
   */
  lemma SortFunctionIsStrictWeakOrder(a: FileEntry, b: FileEntry, c: FileEntry)
    ensures !SortFunction(a, a)
    ensures SortFunction(a, b) && SortFunction(b, c) ==> SortFunction(a, c)
    ensures !SortFunction(a, b) && !SortFunction(b, a) && !SortFunction(b, c) && !SortFunction(c, b) ==>
      !SortFunction(a, c) && !SortFunction(c, a)
    ensures SortFunction(a, b) == SortFunction(a.(filename := c.filename), b)
    ensures SortFunction(a, b) == SortFunction(a, b.(filename := c.filename))
  {
  }

  /** What `std::sort` with `SortFunction` promises: no entry compares less than one before it. */
  ghost predicate SortedByTimestamp(s: seq<FileEntry>)
  {
    forall p, q :: 0 <= p < q < |s| ==> !SortFunction(s[q], s[p])
  }

  /**
   * One directory entry: its name, whether `is_regular_file` holds of it, and the `st_mtime` that
   * `stat` reports, or None when `stat` fails.
   */
  datatype DirEntry = DirEntry(name: string, regular: bool, mtime: Option<int>)

  /** The full path `directory_iterator` gives the entry. */
  function PathOf(e: DirEntry): string
  {
    DataDirectory + "/" + e.name
  }

  /** `time_t` to `size_t`: modulo 2^64. */
  function ToSizeT(t: int): SizeT
  {
    (t % 0x1_0000_0000_0000_0000) as SizeT
  }

  predicate Eligible(e: DirEntry)
  {
    e.name != SeedsFile && e.regular
  }

  /** The catalog record for an entry that was stat'ed: its own path and its own time stamp. */
  function Entry(e: DirEntry): FileEntry
    requires e.mtime.Some?
  {
    FileEntry(PathOf(e), ToSizeT(e.mtime.value))
  }

  ghost predicate AllStatted(es: seq<DirEntry>)
  {
    forall k :: 0 <= k < |es| ==> es[k].mtime.Some?
  }

  /** Entry `k` is the first whose `stat` fails. */
  ghost predicate FirstStatFailure(es: seq<DirEntry>, k: int)
  {
    0 <= k < |es| && es[k].mtime.None? && AllStatted(es[..k])
  }

  /** The records of the eligible entries, in directory order. */
  function Kept(es: seq<DirEntry>): seq<FileEntry>
    requires AllStatted(es)
  {
    if es == [] then []
    else
      var e := es[|es| - 1];
      Kept(es[..|es| - 1]) + if Eligible(e) then [Entry(e)] else []
  }

  /** Every kept record is that of an eligible entry: a regular file other than the seeds file. */
  lemma {:induction false} KeptAreEligible(es: seq<DirEntry>)
    requires AllStatted(es)
    ensures forall x :: x in Kept(es) ==> exists k :: 0 <= k < |es| && Eligible(es[k]) && x == Entry(es[k])
  {
    if es != [] {
      var init := es[..|es| - 1];
      KeptAreEligible(init);
      forall x | x in Kept(es)
        ensures exists k :: 0 <= k < |es| && Eligible(es[k]) && x == Entry(es[k])
      {
        if x in Kept(init) {
          var k :| 0 <= k < |init| && Eligible(init[k]) && x == Entry(init[k]);
          assert es[k] == init[k];
        } else {
          assert Eligible(es[|es| - 1]) && x == Entry(es[|es| - 1]);
        }
      }
    }
  }

  /** Every eligible entry is kept, with its own path and time stamp. */
  lemma {:induction false} EligibleAreKept(es: seq<DirEntry>)
    requires AllStatted(es)
    ensures forall k :: 0 <= k < |es| && Eligible(es[k]) ==> Entry(es[k]) in Kept(es)
  {
    if es != [] {
      var n := |es| - 1;
      var init := es[..n];
      EligibleAreKept(init);
      forall k | 0 <= k < |es| && Eligible(es[k])
        ensures Entry(es[k]) in Kept(es)
      {
        if k < n {
          assert es[k] == init[k];
        }
      }
    }
  }

  /** No record ever names the seeds file. */
  lemma SeedsFileNeverKept(es: seq<DirEntry>)
    requires AllStatted(es)
    ensures forall x :: x in Kept(es) ==> x.filename != DataDirectory + "/" + SeedsFile
  {
    KeptAreEligible(es);
    forall x | x in Kept(es)
      ensures x.filename != DataDirectory + "/" + SeedsFile
    {
      var k :| 0 <= k < |es| && Eligible(es[k]) && x == Entry(es[k]);
      var prefix := DataDirectory + "/";
      assert (prefix + es[k].name)[|prefix|..] == es[k].name;
      assert (prefix + SeedsFile)[|prefix|..] == SeedsFile;
    }
  }

  /** Why the scan stops the program. */
  datatype CatalogError = DataDirectoryMissing | SpeckleDirectoryMissing | StatFailed(path: string) | NoDataFiles

  datatype ScanResult = Scanned(files: seq<FileEntry>) | ScanFailed(error: CatalogError)

  /**
   * The directory loop of `Load_detected_photons_from_file`: every entry is stat'ed before it is
   * filtered, so a failing `stat` stops the scan even for an entry that would not be kept.
   */
  method ScanDirectory(entries: seq<DirEntry>) returns (r: ScanResult)
    ensures r.Scanned? <==> AllStatted(entries)
    ensures r.Scanned? ==> r.files == Kept(entries)
    ensures r.ScanFailed? ==> exists k :: FirstStatFailure(entries, k) && r.error == StatFailed(PathOf(entries[k]))
  {
    var files: seq<FileEntry> := [];
    var k := 0;
    while k < |entries|
      invariant 0 <= k <= |entries|
      invariant AllStatted(entries[..k])
      invariant files == Kept(entries[..k])
    {
      var e := entries[k];
      if e.mtime.None? {
        assert FirstStatFailure(entries, k);
        return ScanFailed(StatFailed(PathOf(e)));
      }
      if e.name != SeedsFile && e.regular {
        files := files + [FileEntry(PathOf(e), ToSizeT(e.mtime.value))];
      }
      assert entries[..k + 1][..k] == entries[..k];
      k := k + 1;
    }
    assert entries[..k] == entries;
    return Scanned(files);
  }

  /** `std::sort(files.begin(), files.end(), SortFunction)`, here by insertion. */
  method SortByTimestamp(a: array<FileEntry>)
    modifies a
    ensures SortedByTimestamp(a[..])
    ensures multiset(a[..]) == multiset(old(a[..]))
  {
    var i := 0;
    while i < a.Length
      invariant 0 <= i <= a.Length
      invariant SortedByTimestamp(a[..i])
      invariant multiset(a[..]) == multiset(old(a[..]))
    {
      InsertLast(a, i);
      i := i + 1;
    }
    assert a[..i] == a[..];
  }

  /** Move `a[i]` down past every later-stamped entry of the sorted prefix `a[..i]`. */
  method InsertLast(a: array<FileEntry>, i: nat)
    requires i < a.Length && SortedByTimestamp(a[..i])
    modifies a
    ensures SortedByTimestamp(a[..i + 1])
    ensures multiset(a[..]) == multiset(old(a[..]))
  {
    var j := i;
    while 0 < j && SortFunction(a[j], a[j - 1])
      invariant 0 <= j <= i
      invariant multiset(a[..]) == multiset(old(a[..]))
      invariant forall p, q :: 0 <= p < q <= i && p != j && q != j ==> !SortFunction(a[q], a[p])
      invariant forall q :: j < q <= i ==> SortFunction(a[j], a[q])
    {
      SwapDown(a, j);
      j := j - 1;
    }
  }

  /** Exchange `a[j - 1]` and `a[j]`. */
  method SwapDown(a: array<FileEntry>, j: nat)
    requires 0 < j < a.Length
    modifies a
    ensures a[j - 1] == old(a[j]) && a[j] == old(a[j - 1])
    ensures forall k :: 0 <= k < a.Length && k != j - 1 && k != j ==> a[k] == old(a[k])
    ensures multiset(a[..]) == multiset(old(a[..]))
  {
    a[j - 1], a[j] := a[j], a[j - 1];
  }

  /** The line count `Get_num_detected_photons` arrives at: one per '\n', plus a last line without one. */
  function LineCount(text: seq<char>): nat
  {
    multiset(text)['\n'] + if text != [] && text[|text| - 1] != '\n' then 1 else 0
  }

  lemma NewlinesBetween(text: seq<char>, p: nat, q: nat)
    requires p <= q <= |text|
    requires forall k :: p <= k < q ==> text[k] != '\n'
    ensures multiset(text[..q])['\n'] == multiset(text[..p])['\n']
  {
    assert text[..q] == text[..p] + text[p..q];
    assert '\n' !in multiset(text[p..q]);
  }

  /**
   * A `getline` on a good stream with text left extracts one line: it stops after the next '\n',
   * or sets eofbit at the end of a last line that has none, which `LineCount` counts as a line.
   */
  lemma GetLineCountsOneLine(s: LineStream)
    requires !s.eof && !s.fail && s.pos < |s.text|
    ensures !GetLine(s).fail && s.pos < GetLine(s).pos <= |s.text|
    ensures !GetLine(s).eof ==> s.text[GetLine(s).pos - 1] == '\n'
    ensures !GetLine(s).eof ==> multiset(s.text[..GetLine(s).pos])['\n'] == multiset(s.text[..s.pos])['\n'] + 1
    ensures GetLine(s).eof ==> GetLine(s).pos == |s.text| && forall k :: s.pos <= k < |s.text| ==> s.text[k] != '\n'
    ensures GetLine(s).eof ==> LineCount(s.text) == multiset(s.text[..s.pos])['\n'] + 1
  {
    var q := NextNewline(s.text, s.pos);
    NewlinesBetween(s.text, s.pos, q);
    if q < |s.text| {
      assert s.text[..q + 1] == s.text[..q] + [s.text[q]];
    } else {
      assert s.text[..q] == s.text;
    }
  }

  /** At the end of a text read line by line, the newlines seen so far are its line count. */
  lemma CountAtEnd(text: seq<char>)
    requires text == [] || text[|text| - 1] == '\n'
    ensures LineCount(text) == multiset(text[..|text|])['\n']
  {
    assert text[..|text|] == text;
  }

  /**
   * `Get_num_detected_photons`: count successful `getline`s until one fails or the stream is no
   * longer good. The open is not checked, so a file that cannot be opened (`None`) counts 0.
   */
  method GetNumDetectedPhotons(contents: Option<seq<char>>) returns (i: nat)
    ensures contents.None? ==> i == 0
    ensures contents.Some? ==> i == LineCount(contents.value)
  {
    i := 0;
    var text := if contents.Some? then contents.value else [];
    var tempStream := if contents.Some? then LineStream(text, 0, false, false) else LineStream([], 0, false, true);
    var more := true;
    while more
      invariant tempStream.text == text && tempStream.pos <= |text|
      invariant more ==> !tempStream.eof && i == multiset(text[..tempStream.pos])['\n']
      invariant more ==> tempStream.pos == 0 || text[tempStream.pos - 1] == '\n'
      invariant more && tempStream.fail ==> contents.None? && i == 0
      invariant !more ==> contents.Some? && i == LineCount(text)
      decreases more, |text| - tempStream.pos
    {
      if !tempStream.fail && tempStream.pos < |text| {
        GetLineCountsOneLine(tempStream);
      } else if !tempStream.fail {
        CountAtEnd(text);
      }
      tempStream := GetLine(tempStream);
      if tempStream.fail {
        break;
      }
      i := i + 1;
      more := !tempStream.eof && !tempStream.fail;
    }
  }

  /** How `Load_detected_photons_from_file` ends: the sorted catalog and the first file's line count, or an abort. */
  datatype Outcome = Catalogued(files: seq<FileEntry>, numFiles: nat, numDetectedPhotons: nat) | Aborted(error: CatalogError)

  /**
   * `Load_detected_photons_from_file` up to its line count. Both directories must exist; the data
   * directory's `entries` are scanned in the order given; `texts` holds the files that open.
   * `files.at(0)` throws on an empty catalog, which ends the run.
   */
  method LoadDetectedPhotonsFromFile(dataDirIsDirectory: bool, speckleDirIsDirectory: bool,
                                     entries: seq<DirEntry>, texts: map<string, seq<char>>)
    returns (r: Outcome)
    ensures !dataDirIsDirectory ==> r == Aborted(DataDirectoryMissing)
    ensures dataDirIsDirectory && !speckleDirIsDirectory ==> r == Aborted(SpeckleDirectoryMissing)
    ensures dataDirIsDirectory && speckleDirIsDirectory && !AllStatted(entries) ==>
      r.Aborted? && exists k :: FirstStatFailure(entries, k) && r.error == StatFailed(PathOf(entries[k]))
    ensures dataDirIsDirectory && speckleDirIsDirectory && AllStatted(entries) ==>
      (r == Aborted(NoDataFiles) <==> Kept(entries) == [])
    ensures dataDirIsDirectory && speckleDirIsDirectory && AllStatted(entries) && Kept(entries) != [] ==>
      r.Catalogued?
    ensures r.Catalogued? ==>
      && AllStatted(entries)
      && SortedByTimestamp(r.files)
      && multiset(r.files) == multiset(Kept(entries))
      && r.numFiles == |r.files| > 0
      && r.numDetectedPhotons == (if r.files[0].filename in texts then LineCount(texts[r.files[0].filename]) else 0)
  {
    if !dataDirIsDirectory {
      return Aborted(DataDirectoryMissing);
    }
    if !speckleDirIsDirectory {
      return Aborted(SpeckleDirectoryMissing);
    }
    var scan := ScanDirectory(entries);
    if scan.ScanFailed? {
      return Aborted(scan.error);
    }
    var a := new FileEntry[|scan.files|](k requires 0 <= k < |scan.files| => scan.files[k]);
    assert a[..] == scan.files;
    SortByTimestamp(a);
    var files := a[..];
    if |files| == 0 {
      return Aborted(NoDataFiles);
    }
    var first := files[0].filename;
    var numDetected := GetNumDetectedPhotons(if first in texts then Some(texts[first]) else None);
    return Catalogued(files, |files|, numDetected);
  }
}
