# go-zipedit in Dafny

This project models the two public functions of the Go package `zipedit`, and proves properties about them:

- **`CopyZipWithoutFile`** copies a ZIP archive into a new file. It leaves out the entries whose names match a regular expression. It keeps the archive comment and each kept entry's header and bytes, and it stops at the first error.
- **`CompareZipFiles`** checks a candidate archive against a source archive. Every source entry that is not excluded and is not a directory must have a counterpart of the same name, with the same file info and the same SHA-256 digest. A mismatch is `(false, nil)`. Failing to open, find or stat an entry is an error.

Archives are abstract values: `Archive(comment, entries)`, where each `Entry` has a `Header` (name, size, mode, modification time, directory flag, compression method), its content bytes, and the faults a reader of it would meet. The regular expression becomes a predicate `skip: string -> bool` on raw entry names. The SHA-256 digest becomes a function parameter `digest`.

Modules:

- `ZipArchive` (`zip_archive.dfy`): the data model, errors, faults and the candidate lookup.
- `ZipCopy` (`zip_copy.dfy`): the destination writer as a class, the copier as a method with a loop, its reference function `CopyResult`, and lemmas about it.
- `ZipCompare` (`zip_compare.dfy`): `compareFileInfo`, the hashing helpers, the checker as a method with a loop, its reference function `CompareResult`, and lemmas about it.
- `RoundTrip` (`round_trip.dfy`): checking a source archive against its successful filtered copy, plus worked scenarios.

Behaviours the model pins down, following the code:

- **A failed privilege check aborts the copy.** `amIRoot` returns an error when the current user cannot be found. Lines 87-94 leave that error in `err`, and line 97 checks `err` after `zip.NewWriter` at line 96. So the copy returns the error after creating the writer, before it writes the comment or any entry, and without touching the owner.
- **A read error while hashing is reported as a mismatch.** It is counted and then surfaces as `Ok(false)`, not as an error (lines 243-250).
- **Directories are opened before they are skipped.** A directory entry whose stream cannot be opened is therefore an error (lines 213-221).
- **Exactly one leading `/` is stripped** before the candidate lookup (lines 222-227).
- **The comparison is one-sided.** Candidate entries filed under a name that no source entry looks up cannot change any verdict, wherever they stand.
- **An empty entry never reaches `Write`.** `io.Copy` writes only the bytes it has read (line 118), so an entry with no bytes cannot meet a write fault.

The candidate lookup `zip.Reader.Open` is modelled by `Lookup`. It returns the first entry whose key `StoredKey` equals the requested name. `StoredKey` is the stored name with every leading `/` removed.

This approximates the Go reader. The reader files each entry under the `path.Clean` of its name, without the leading `/`. Cleaning also drops trailing slashes, collapses repeated slashes, and resolves `.` and `..` elements. The model does none of that. For example, a directory `x/` and a file `x` share the key `x` in the reader, but they have different keys in the model.

Within the model, the round trip holds when:

- the kept entries have distinct keys;
- no kept file entry's name begins with two slashes. For such a name, the checker strips one slash and looks up a name with a leading `/`, which is filed nowhere.

For the real reader, the kept entries' cleaned names must also be distinct.

Following Go's `path.Base`, the file info compares the last path element of the name. This is why `/a/b.txt` and `a/b.txt` have equal file info.

The model has no paths, clocks or randomness:

- An archive that cannot be opened is `None`.
- The answers of the file-system calls come in `ZipCopy.Env`: stat, create, chmod, the privilege check and chown. So do the writer slots at which `CreateHeader` or a write fails.

## Model

| member | source | states |
|---|---|---|
| `ZipArchive.FindEntry` | zip_edit.go:228-232 | the hit is an entry of the archive filed under the requested name; a miss means no entry is filed under it |
| `ZipArchive.FindEntryFirst` | zip_edit.go:228-232 | when several entries are filed under the key, the lookup finds the first of them |
| `ZipArchive.FindEntryFiledUnder` | zip_edit.go:228-232 | a lookup depends only on the entries filed under the key it asks for |
| `ZipArchive.FindEntryAppend` | zip_edit.go:228-232 | entries appended to an archive do not change a successful lookup |
| `ZipArchive.FindEntryUnique` | zip_edit.go:228-232 | when keys are distinct, looking up an entry's key finds that very entry |
| `ZipArchive.StoredKey` | zip_edit.go:222-228 | the key is the name with its whole run of leading slashes removed, and does not itself begin with `/` |
| `ZipArchive.BaseNameIsLastElement` | zip_edit.go:239 | the file-info name is `/` exactly for a name made only of slashes; otherwise it is the last element of the name after trailing slashes are removed: a non-empty suffix that starts at the beginning or right after a `/` and contains no `/` |
| `ZipArchive.BaseNameIgnoresLeadingSlash` | zip_edit.go:239 | a leading `/` does not change the file-info name of a non-empty path |
| `ZipArchive.Delivered` | zip_edit.go:118 | a stream yields a prefix of the entry's bytes, and all of them when it does not fail |
| `ZipCopy.ZipWriter.constructor` | zip_edit.go:96 | a new writer has an empty comment and no entries |
| `ZipCopy.ZipWriter.SetComment` | zip_edit.go:103 | sets the comment and leaves the entries alone |
| `ZipCopy.ZipWriter.CreateHeader` | zip_edit.go:113-117 | appends one entry with exactly the given header and no bytes, or fails at a faulty slot and changes nothing |
| `ZipCopy.ZipWriter.Write` | zip_edit.go:118-122 | appends the bytes to the last entry and keeps the others, or fails at a faulty slot and changes nothing |
| `ZipCopy.KeptMembers` | zip_edit.go:104-108 | an entry is kept if and only if it is a source entry and `skip` does not match its name |
| `ZipCopy.CopyEntry` | zip_edit.go:109-124 | one entry's copy succeeds exactly when it meets no fault (a write fault matters only for an entry whose stream yields bytes), and then appends the entry's exact header and bytes; otherwise it leaves at most one partial copy, with that header and a prefix of the bytes |
| `ZipCopy.CopyZipWithoutFile` | zip_edit.go:57-128 | the returned error and the writer's final comment and entries are those of `CopyResult`; no writer exists when a setup step before line 96 fails |
| `ZipCopy.CopyLoopSucceedsIff` | zip_edit.go:104-125 | the entry loop succeeds if and only if every kept entry, in its writer slot, meets no fault |
| `ZipCopy.CopyLoopWritesKept` | zip_edit.go:104-125 | a successful loop appends the whole copies of the kept entries, in source order |
| `ZipCopy.StopsAtCons` | zip_edit.go:104-125 | a clean first entry shifts the point where the loop stops by one |
| `ZipCopy.CopyLoopStopsAtFirstFault` | zip_edit.go:109-122 | a failing loop stops at some kept entry: all earlier kept entries were copied whole, that entry's step gives the error, and nothing later is written |
| `ZipCopy.CopySucceeds` | zip_edit.go:57-128 | the copy succeeds if and only if setup succeeds and no kept entry meets a fault; then the destination is the source comment plus whole copies of exactly the kept entries, in order |
| `ZipCopy.CopyAbortsAtFirstFault` | zip_edit.go:109-122 | after setup, a failed copy returns the first faulty kept entry's error; the destination is the source comment, whole copies of the kept entries before it, and at most a partial copy of it |
| `ZipCopy.PrivilegeCheckFailureAborts` | zip_edit.go:87-100 | when the privilege check errs, the copy returns that error with a writer that has no comment and no entries |
| `ZipCopy.WrittenComesFromKept` | zip_edit.go:104-122 | whole copies of a prefix of the kept entries, followed by partial copies of the next one, all come from kept entries |
| `ZipCopy.ExcludedEntriesNeverWritten` | zip_edit.go:104-118 | on every outcome, each entry in the destination has an unexcluded name and is a whole or partial copy of a source entry |
| `ZipCompare.CompareFileInfo` | zip_edit.go:161-178 | true if and only if name, size, mode, modification time and directory flag all agree |
| `ZipCompare.CompareFileInfoIsEquivalence` | zip_edit.go:161-178 | the file-info comparison is reflexive, symmetric and transitive |
| `ZipCompare.HashEntry` | zip_edit.go:132-142 | hashing the delivered bytes succeeds exactly when the stream reads to its end, and then yields the digest of the entry's whole content; otherwise it yields that entry's read error |
| `ZipCompare.CompareReaderHash` | zip_edit.go:145-157 | an error exactly when either stream fails, naming the first stream hashed that fails; true exactly when both read whole and the digests agree |
| `ZipCompare.StripSlash` | zip_edit.go:222-227 | removes one leading `/` when there is one, and nothing else |
| `ZipCompare.StripSlashReachesStoredKey` | zip_edit.go:222-228 | stripping one slash gives the reader's key if and only if the name does not begin with two slashes |
| `ZipCompare.CompareZipFiles` | zip_edit.go:182-255 | the checker returns exactly `CompareResult` |
| `ZipCompare.ContinueIffCovered` | zip_edit.go:208-252 | the loop moves past an entry if and only if it is excluded, or is a directory that opens, or has a counterpart that opens and stats, with equal file info and equal digests of fully read streams |
| `ZipCompare.NeverStopsWithTrue` | zip_edit.go:208-252 | an iteration that ends the loop never ends it with `true`: only line 254 returns `true` |
| `ZipCompare.CompareEntriesTrueIff` | zip_edit.go:208-254 | the loop returns `Ok(true)` if and only if every source entry is covered in that sense |
| `ZipCompare.CompareEntriesAppend` | zip_edit.go:208-252 | once the loop has a verdict other than `Ok(true)`, later entries cannot change it; otherwise it goes on with them |
| `ZipCompare.CompareTrueIff` | zip_edit.go:182-255 | the checker returns `Ok(true)` if and only if both archives open, the comments agree and every source entry is covered |
| `ZipCompare.CommentMismatchIsFalse` | zip_edit.go:203-206 | different comments give `Ok(false)`, whatever the entries |
| `ZipCompare.VerdictAtReachedEntry` | zip_edit.go:208-252 | when every earlier entry is covered, the checker returns the stopping verdict of the entry it reaches |
| `ZipCompare.MissingCounterpartIsError` | zip_edit.go:228-232 | a reached file entry with no counterpart gives `Err(NotFound(name))`, not `Ok(false)` |
| `ZipCompare.SourceOpenFailureIsError` | zip_edit.go:213-221 | a reached, unexcluded entry whose stream does not open gives an error, even when it is a directory |
| `ZipCompare.HeaderMismatchIsFalse` | zip_edit.go:234-242 | a counterpart with different file info gives `Ok(false)` |
| `ZipCompare.HashTroubleIsFalse` | zip_edit.go:243-250 | with equal file info, a read error on either stream, or different digests, gives `Ok(false)` |
| `ZipCompare.VerdictAgrees` | zip_edit.go:208-252 | an iteration sees the candidate only through the lookup of its own name |
| `ZipCompare.LookupsAgree` | zip_edit.go:208-254 | two candidates that answer every source name's lookup alike give the same loop result |
| `ZipCompare.UnrelatedEntriesIgnored` | zip_edit.go:182-255 | two candidates with the same comment and the same entries under the names the source looks up give the same verdict, `Ok(false)` and errors included; the other entries may be added, removed or reordered |
| `ZipCompare.UnrelatedInsertionIgnored` | zip_edit.go:182-255 | inserting, at any position of the candidate, entries filed under no name the source looks up leaves the verdict unchanged |
| `ZipCompare.ExtraEntriesIgnored` | zip_edit.go:208-254 | appending any entries to the candidate, even ones filed under a looked-up name, keeps an `Ok(true)` verdict, because each lookup finds the earlier entry first |
| `ZipCompare.TrueMeansSameContent` | zip_edit.go:208-254 | with a collision-free digest, `Ok(true)` means every kept file entry has a counterpart with equal file info and equal bytes |
| `RoundTrip.RoundTrip` | zip_edit_test.go:21-46 | checking a source against its successful filtered copy, under the same predicate, gives `Ok(true)` |
| `RoundTrip.CopyScenario` | zip_edit.go:103-125 | copying {a.txt, b.txt~, c/} under `~$` with comment "rev1" gives {a.txt, c/} with comment "rev1" |
| `RoundTrip.CheckScenario` | zip_edit.go:208-254 | that copy passes the check under `~$` |
| `RoundTrip.CheckNothingExcludedScenario` | zip_edit.go:228-232 | checked with nothing excluded, that copy gives `Err(NotFound("b.txt~"))` |
| `RoundTrip.LeadingSlashIsStripped` | zip_edit.go:222-239 | a source entry stored as `/n` matches a candidate entry stored as `n` with the same fields and bytes |

## Left out

- The ZIP byte format is not modelled: local headers, central directory, deflate, CRC. The destination archive is the comment and entries that the writer holds.
- `zip.Writer.CreateHeader` changes the header it is given: flags, versions, and the sizes and CRC recomputed on close. For a name ending in `/`, it forces the method to Store, clears the sizes, and refuses non-empty writes. None of this is modelled: `Copy` copies the header as it is, the `compression` of a directory included.
- Closing the writer is not modelled. When the privilege check fails, the real destination file is left without a central directory, because the deferred close is registered only after line 100.
- SHA-256 and hex encoding are replaced by the `digest` parameter.
- The file-system and OS calls are reduced to their outcomes in `Env`: `os.Stat`, `os.Create`, `Chmod`, `user.Current`, `syncOwners` and its `syscall.Stat_t` lookup. Their effects are not modelled: the destination path `origPath + newSuffix`, the permission bits, and the owner.
- Regular-expression compilation and matching are replaced by the `skip` predicate.
- `zip.Reader.Open` name validation (`fs.ValidPath`) is not modelled. Nor is the `path.Clean` of stored names: removing trailing slashes, collapsing repeated slashes, resolving `.` and `..`, and turning backslashes into slashes. Also not modelled: the marking of duplicate names, and the directories it synthesises. Lookup is the first match by `StoredKey`, which removes leading slashes only. So a file `x` whose candidate holds only a directory `x/` gives `Err(NotFound("x"))` in the model. The reader finds the directory, and the result is `Ok(false)`.
- `fs.FileInfo` takes size, mode, modification time and directory flag straight from the header. The derivation from external attributes, MS-DOS time fields and 32- or 64-bit size fields is not modelled.
- `io.Copy` is modelled as whole operations. All bytes read are written, and then a read error is reported. A failed write writes nothing. Chunking is not modelled.
- The `count.Incr` and `count.IncrDelta` instrumentation is not modelled.
- `defer` close ordering and resource release are not modelled. On the checker's directory path the source stream is never closed; this is not modelled either.
- The test's check of file modes is not modelled: it stats the source path twice.
- RoundTrip.RoundTrip: the lemma assumes that kept entries have distinct lookup keys and that no kept file name begins with two slashes. Without these, the candidate lookup can return another entry or none.

Running the checker twice on the same pair gives the same result. This holds because `CompareResult` is a function, so no separate lemma states it.
