# Speckle-OpenCL exit-data loading, modelled in Dafny

Speckle-OpenCL turns the photons that leave a simulated medium into speckle patterns. Its host
code defines routines that read the exit data of the acousto-optic simulation in
`../AO-KWave-MCBoost/Data`:

- `Load_detected_photons_from_file` (main.cpp) finds the data files, orders them by modification
  time and counts the photons (lines) in the earliest file with `Get_num_detected_photons`;
- the class `ExitData` (exit_data.h, exit_data.cpp) loads one file into a table of doubles, one row
  per photon.

In the code shown these routines are defined but not called: `main` (main.cpp:91-344) sets up
OpenCL and fills its buffers without them, and main.cpp does not use `ExitData`. `main` does report
OpenCL failures by name through `oclErrorString`. This project models these routines and proves
what they guarantee.

- `iostreams.dfy`, module `IoStreams`: the parts of the C++ stream library the code relies on.
  - Formatted extraction `>>` of a double is a walk over whitespace-separated tokens, each a number
    or not (`Extract`).
  - `std::getline` is a walk over characters to the next `'\n'` (`GetLine`).
  - Both keep eofbit and failbit the way the library sets them.
- `exit_data.dfy`, module `ExitTable`: the record `filename_tstamp` (`FileEntry`) and the class
  `ExitData`.
  - The class has the fields `values`, `files`, `exitFileStream` and the reserved capacity.
  - `ParseExitFile` defines the table a file yields.
  - `LoadExitData` and its row loop `ReadRow` are imperative methods proved to produce that table.
  - Lemmas describe the table: full rows are consecutive chunks of the numbers, the last row is the
    rest padded with zeros, and line 1 is never stored.
- `catalog.dfy`, module `Catalog`: `SortFunction` and the directory scan with its filter.
  - The sort is an in-place insertion sort on an array. It is proved sorted and a permutation,
    which is what `std::sort` promises.
  - `Get_num_detected_photons` is a loop over `getline`, proved equal to a line count.
  - `Load_detected_photons_from_file` is modelled up to its first line count.
- `ocl_errors.dfy`, module `OclErrors`: the 64-entry name table and its range-checked lookup.

`ExitData.NumFiles` is `Get_num_files`, the size of `files`. It is a plain read, so it has no row
in the table below. `IoStreams.Extract` and `IoStreams.GetLine` are stream definitions used by the
proved methods, not contracts.

Three behaviours of the code that the model keeps:

- `std::sort` is not stable. Entries with equal time stamps may come out in either order, so the
  model promises only sortedness and permutation.
- With no column on line 1 and line 1 ending in a newline, the stream stays good and the row loop
  never ends, pushing empty rows forever. The model reports this as the outcome `Hangs`.
- Line 1 is read only to count the columns. Its values are never stored.

## Model

| member | source | states |
|---|---|---|
| IoStreams.NumericPrefix | exit_data.cpp:49 | `>>` stops at the first token that is not a number: every token before the count is a number, and the one at the count is not |
| IoStreams.Numbers | exit_data.cpp:71-77 | the values successive reads store are exactly the leading numeric tokens, in order, as many as `NumericPrefix` counts |
| IoStreams.NextNewline | main.cpp:426 | the end of the current line: no `'\n'` before it, and a `'\n'` at it unless the text ends there |
| ExitTable.CountColumns | exit_data.cpp:43-51 | `COLS` is the number of leading tokens of line 1 that read as numbers; counting stops at the first that does not |
| ExitTable.ParseExitFile | exit_data.cpp:43-81 | the table is at least one row, every row exactly COLS wide; it never ends exactly when COLS is 0 and line 1 ends in a newline, whatever follows |
| ExitTable.ReadStep | exit_data.cpp:71-75 | during the row loop a read either stores the next number after line 1 and leaves failbit clear, or fails exactly when the numbers have run out |
| ExitTable.FullRowsAreChunks | exit_data.cpp:65-81 | every row but the last is the next COLS numbers after line 1, whatever the line breaks |
| ExitTable.LastRowIsPaddedTail | exit_data.cpp:65-81 | the last row is the leftover numbers followed by zeros; it is full exactly when the file ends right after a complete row, and holds no number exactly when the numbers after line 1 fill a whole number of rows, possibly none, and the file does not end right on the last of them |
| ExitTable.FirstLineOnlyCounts | exit_data.cpp:43-58 | two files that differ only in line 1, with the same column count, load the same table: line 1 is never stored |
| ExitTable.ExampleShortLastRow | exit_data.cpp:65-81 | header `1 2 3`, then `4 5 6 7 8` ending the file, loads as `[[4,5,6],[7,8,0]]` |
| ExitTable.ExitData.constructor | exit_data.cpp:9-12 | a new object has an empty table, no files and no open stream; the hint only sets capacity |
| ExitTable.ExitData.ReadRow | exit_data.cpp:66-79 | one pass of the do-while pushes one COLS-wide row, fills its columns in order from the stream, and stops at the first failed read with the rest still 0.0 |
| ExitTable.ExitData.LoadExitData | exit_data.cpp:21-82 | any open stream is closed first. A file that does not open stops the run with the table untouched. Otherwise the table is replaced by exactly `ParseExitFile` of that file, the stream ends not good, and `files` is unchanged |
| Catalog.SortFunctionIsStrictWeakOrder | main.cpp:84 | `SortFunction` is irreflexive and transitive, and so is incomparability, as `std::sort` requires; file names play no part |
| Catalog.KeptAreEligible | main.cpp:388-395 | every catalogued record comes from a regular file that is not the seeds file, with its own path and time stamp |
| Catalog.EligibleAreKept | main.cpp:388-395 | every regular file other than the seeds file is catalogued with its own path and time stamp |
| Catalog.SeedsFileNeverKept | main.cpp:388-389 | no record names `seeds_for_exit.dat` |
| Catalog.ScanDirectory | main.cpp:375-396 | the scan succeeds exactly when every entry can be stat'ed, and then yields the eligible entries in directory order; otherwise it fails on the first entry that cannot be, eligible or not |
| Catalog.SortByTimestamp | main.cpp:398-399 | afterwards no entry has an earlier time stamp than one before it, and the entries are a permutation of those before |
| Catalog.GetLineCountsOneLine | main.cpp:424-431 | a `getline` on a good stream with text left extracts one line: up to and including the next `'\n'`, or, when no `'\n'` is left, the rest of the text, which sets eofbit at its end |
| Catalog.GetNumDetectedPhotons | main.cpp:412-438 | the count is the number of newlines plus one for a last line without a newline; an empty file or one that does not open counts 0 |
| Catalog.LoadDetectedPhotonsFromFile | main.cpp:349-403 | a missing data or speckle directory, or a stat failure, aborts. No eligible file aborts (`files.at(0)` throws). Otherwise the run always succeeds: the catalog is sorted, is a permutation of the eligible entries, has `NUM_FILES` entries, and the photon count is the line count of the earliest file |
| OclErrors.OclErrorString | main.cpp:442-517 | a name is returned exactly for the codes 0 to -12 and -30 to -63, from the table entry of the negated code; every other code, including positive ones and -13 to -29, gives "" |
| OclErrors.NamesAreClConstants | main.cpp:444-509 | every name returned has the form of an OpenCL constant name, `CL_` followed by more |
| OclErrors.ErrorStringSamples | main.cpp:444-515 | the table has 64 entries; 0 is `CL_SUCCESS`, -12 `CL_MAP_FAILURE`, -30 `CL_INVALID_VALUE`, -63 `CL_INVALID_GLOBAL_WORK_SIZE`; -13 to -29, 1, -64 and -2^31 give "" |

## Left out

- main.c is not part of this model. It holds OpenCL device, context, queue, kernel and buffer setup and program loading, all calls into a library that is not shown.
- The OpenCL setup and dispatch, photon and CCD initialisation, and speckle output of main.cpp (main.cpp:91-338) are left out. They are library calls, `rand()` and floating-point formatting.
- Console output is left out everywhere.
- `ExitData::Load_and_sort_filenames`, `loadExitData(const size_t&)` and the member `Get_num_detected_photons` are declared without a body in exit_data.h, so they are not modelled.
- The per-time-step driver and the transfer of table rows into kernel buffers are not in the code modelled here.
- Float parsing is abstract: a token either reads as a number with some `real` value or does not. Range errors and hexadecimal or special literals are not distinguished.
- The file system is given as parameters: a map from names to file contents, directory flags, and directory entries with their stat results. `exit(1)` becomes an outcome value.
- An exit-data file is seen as line 1 plus one token stream for the rest. The photon counter sees the same kind of file as characters. The model does not tie the two views of one file together.
- Opening a stream is taken to clear its state flags, as C++11 `open` does.
- `ExitData.constructor` requires a non-negative hint. A negative `int` converts to a huge `size_t`, and `reserve` then throws `length_error`. Capacity growth of `values` is not modelled.
- `ExitData.LoadExitData` returns `Hangs` instead of looping forever when there is no column and line 1 ends in a newline, whatever follows. In that case it states only that the table was cleared, not the endless growth of empty rows.
- `ExitData.NumFiles` has no contract: its body, the size of `files`, is what `Get_num_files` promises.
- `Catalog.GetNumDetectedPhotons` counts in unbounded integers. The source's `int` counter would overflow beyond 2^31-1 lines, which is not modelled.
- `Catalog.LoadDetectedPhotonsFromFile` gives `NUM_FILES` as a natural number. The `size_t`-to-`int` narrowing of `const int NUM_FILES` is not modelled. Stream flags and the printing after the count are left out.
- Time stamps: `st_mtime` is converted to `size_t` modulo 2^64. The tie order of `std::sort` for equal time stamps is unspecified, and the model does not fix one.
- `SortByTimestamp` is an insertion sort. It meets the contract of `std::sort` (sorted and a permutation), not its particular algorithm.
- `OclErrorString` negates the code in unbounded arithmetic. In C++, `-error` for -2^31 overflows. Either way that code falls outside the table and gives "".
- Codes that later OpenCL versions define between -13 and -19 and below -63 have no entry in the table and give "". The model states this as it stands.
