/** The equivalence checker: CompareZipFiles walks the source archive's
    entries in order and, for each one the exclusion predicate does not match
    and that is not a directory, looks up the entry of the same name in the
    candidate archive and compares file info and content digest.  A mismatch
    is `Ok(false)`; a failure to open, find or stat an entry is an error. */
module ZipCompare {
  import opened ZipArchive

  /** compareFileInfo: name, size, mode, modification time and directory flag, in that order. */
  function CompareFileInfo(a: FileInfo, b: FileInfo): (r: bool)
    ensures r <==> a == b
  {
    if a.name != b.name then false
    else if a.size != b.size then false
    else if a.mode != b.mode then false
    else if a.modTime != b.modTime then false
    else if a.isDir != b.isDir then false
    else true
  }

  /** compareFileInfo is an equivalence relation. */
  lemma CompareFileInfoIsEquivalence(a: FileInfo, b: FileInfo, c: FileInfo)
    ensures CompareFileInfo(a, a)
    ensures CompareFileInfo(a, b) == CompareFileInfo(b, a)
    ensures CompareFileInfo(a, b) && CompareFileInfo(b, c) ==> CompareFileInfo(a, c)
  {
  }

  /** hashReadCloser: the digest of the bytes the stream delivers, or the
      read error; a stream read to its end digests the whole content. */
  function HashEntry(e: Entry, digest: seq<byte> -> string): (r: Result<string>)
    ensures r.Ok? <==> Readable(e)
    ensures r.Ok? ==> r.value == digest(e.content)
    ensures r.Err? ==> r.error == ReadError(e.header.name)
  {
    if Readable(e) then Ok(digest(Delivered(e))) else Err(ReadError(e.header.name))
  }

  /** compareReaderHash: hashes `a` first, then `b`; the first read error wins. */
  function CompareReaderHash(a: Entry, b: Entry, digest: seq<byte> -> string): (r: Result<bool>)
    ensures r.Err? <==> !Readable(a) || !Readable(b)
    ensures r.Err? ==> r.error == ReadError(if Readable(a) then b.header.name else a.header.name)
    ensures r == Ok(true) <==> Readable(a) && Readable(b) && digest(a.content) == digest(b.content)
  {
    match HashEntry(a, digest)
    case Err(e) => Err(e)
    case Ok(ha) =>
      match HashEntry(b, digest)
      case Err(e) => Err(e)
      case Ok(hb) => Ok(ha == hb)
  }

  /** The name under which a source entry is looked up: one leading '/' removed, if present. */
  function StripSlash(name: string): (r: string)
    ensures name == r || name == "/" + r
    ensures |name| > 0 && name[0] == '/' ==> name == "/" + r
  {
    if |name| > 0 && name[0] == '/' then name[1..] else name
  }

  /** A name that does not begin with two slashes. */
  predicate AtMostOneLeadingSlash(name: string) {
    !(|name| >= 2 && name[0] == '/' && name[1] == '/')
  }

  /** Stripping one slash reaches the reader's key exactly when the name has
      at most one leading slash. */
  lemma StripSlashReachesStoredKey(name: string)
    ensures StripSlash(name) == StoredKey(name) <==> AtMostOneLeadingSlash(name)
  {
    if |name| > 0 && name[0] == '/' {
      assert StoredKey(name) == StoredKey(name[1..]);
      if |name| >= 2 && name[1] == '/' {
        assert StoredKey(name[1..]) == StoredKey(name[2..]);
        assert |StoredKey(name)| < |StripSlash(name)|;
      }
    }
  }

  /** What the loop does with one source entry: go on, or return a result. */
  datatype Verdict = Continue | Stop(result: Result<bool>)

  /** One iteration of the loop of CompareZipFiles over source entry `f`. */
  function EntryVerdict(f: Entry, candidate: Archive, skip: string -> bool, digest: seq<byte> -> string): Verdict {
    if skip(f.header.name) then Continue
    else if f.faults.openFails then Stop(Err(EntryOpenError(f.header.name)))
    else if f.header.isDir then Continue
    else CounterpartVerdict(f, StripSlash(f.header.name), Lookup(candidate, StripSlash(f.header.name)), digest)
  }

  /** The rest of that iteration, once the lookup of `fname` has answered `found`. */
  function CounterpartVerdict(f: Entry, fname: string, found: Option<Entry>, digest: seq<byte> -> string): Verdict {
    match found
    case None => Stop(Err(NotFound(fname)))
    case Some(destFile) =>
      if destFile.faults.openFails then Stop(Err(EntryOpenError(fname)))
      else if destFile.faults.statFails then Stop(Err(EntryStatError(fname)))
      else if !CompareFileInfo(InfoOf(destFile.header), InfoOf(f.header)) then Stop(Ok(false))
      else
        var h := CompareReaderHash(destFile, f, digest);
        // a hash error is only counted; the result is then `false`
        if !(h.Ok? && h.value) then Stop(Ok(false)) else Continue
  }

  /** The loop of CompareZipFiles over `es`. */
  function CompareEntries(es: seq<Entry>, candidate: Archive, skip: string -> bool, digest: seq<byte> -> string): Result<bool> {
    if es == [] then Ok(true)
    else match EntryVerdict(es[0], candidate, skip, digest)
      case Continue => CompareEntries(es[1..], candidate, skip, digest)
      case Stop(r) => r
  }

  /** The reference definition of CompareZipFiles; `None` is an archive that cannot be opened. */
  function CompareResult(source: Option<Archive>, candidate: Option<Archive>,
                         skip: string -> bool, digest: seq<byte> -> string): Result<bool> {
    if source.None? then Err(SourceOpenError)
    else if candidate.None? then Err(CandidateOpenError)
    else if source.value.comment != candidate.value.comment then Ok(false)
    else CompareEntries(source.value.entries, candidate.value, skip, digest)
  }

  /** The checker. */
  method CompareZipFiles(source: Option<Archive>, candidate: Option<Archive>,
                         skip: string -> bool, digest: seq<byte> -> string) returns (r: Result<bool>)
    ensures r == CompareResult(source, candidate, skip, digest)
  {
    if source.None? {
      return Err(SourceOpenError);
    }
    var origZip := source.value;
    if candidate.None? {
      return Err(CandidateOpenError);
    }
    var diffZip := candidate.value;
    if origZip.comment != diffZip.comment {
      return Ok(false);
    }
    var i := 0;
    while i < |origZip.entries|
      invariant i <= |origZip.entries|
      invariant CompareEntries(origZip.entries[i..], diffZip, skip, digest) ==
                CompareEntries(origZip.entries, diffZip, skip, digest)
    {
      var f := origZip.entries[i];
      assert origZip.entries[i..][1..] == origZip.entries[i + 1..];
      if skip(f.header.name) {
        i := i + 1;
        continue;
      }
      if f.faults.openFails {
        return Err(EntryOpenError(f.header.name));
      }
      if f.header.isDir {
        i := i + 1;
        continue;
      }
      var fname := StripSlash(f.header.name);
      var found := Lookup(diffZip, fname);
      if found.None? {
        return Err(NotFound(fname));
      }
      var destFile := found.value;
      if destFile.faults.openFails {
        return Err(EntryOpenError(fname));
      }
      if destFile.faults.statFails {
        return Err(EntryStatError(fname));
      }
      if !CompareFileInfo(InfoOf(destFile.header), InfoOf(f.header)) {
        return Ok(false);
      }
      var hashed := CompareReaderHash(destFile, f, digest);
      var eq := hashed.Ok? && hashed.value;
      if !eq {
        return Ok(false);
      }
      i := i + 1;
    }
    return Ok(true);
  }

  /** The declarative reading of one source entry passing the check: it is
      excluded, or it opens and is a directory, or its counterpart exists,
      opens, stats, has the same file info, and both streams read whole to
      equal digests. */
  predicate Covered(f: Entry, candidate: Archive, skip: string -> bool, digest: seq<byte> -> string) {
    skip(f.header.name) ||
    (!f.faults.openFails &&
     (f.header.isDir ||
      match Lookup(candidate, StripSlash(f.header.name))
      case None => false
      case Some(d) =>
        !d.faults.openFails && !d.faults.statFails && Readable(d) && Readable(f) &&
        InfoOf(d.header) == InfoOf(f.header) && digest(d.content) == digest(f.content)))
  }

  lemma ContinueIffCovered(f: Entry, candidate: Archive, skip: string -> bool, digest: seq<byte> -> string)
    ensures EntryVerdict(f, candidate, skip, digest) == Continue <==> Covered(f, candidate, skip, digest)
  {
    if !skip(f.header.name) && !f.faults.openFails && !f.header.isDir {
      match Lookup(candidate, StripSlash(f.header.name))
      case None =>
      case Some(d) =>
        var same := CompareFileInfo(InfoOf(d.header), InfoOf(f.header));
        var h := CompareReaderHash(d, f, digest);
        assert (h.Ok? && h.value) <==> Readable(d) && Readable(f) && digest(d.content) == digest(f.content);
    }
  }

  /** An iteration that stops the loop never stops it with `Ok(true)`. */
  lemma NeverStopsWithTrue(f: Entry, candidate: Archive, skip: string -> bool, digest: seq<byte> -> string)
    ensures EntryVerdict(f, candidate, skip, digest) != Stop(Ok(true))
  {
    if !skip(f.header.name) && !f.faults.openFails && !f.header.isDir {
      var fname := StripSlash(f.header.name);
      assert CounterpartVerdict(f, fname, Lookup(candidate, fname), digest) != Stop(Ok(true));
    }
  }

  /** The loop returns `Ok(true)` exactly when every source entry is covered. */
  lemma {:induction false} CompareEntriesTrueIff(es: seq<Entry>, candidate: Archive, skip: string -> bool, digest: seq<byte> -> string)
    ensures CompareEntries(es, candidate, skip, digest) == Ok(true) <==>
      forall i :: 0 <= i < |es| ==> Covered(es[i], candidate, skip, digest)
  {
    if es != [] {
      CompareEntriesTrueIff(es[1..], candidate, skip, digest);
      ContinueIffCovered(es[0], candidate, skip, digest);
      if forall i :: 0 <= i < |es[1..]| ==> Covered(es[1..][i], candidate, skip, digest) {
        assert forall i :: 1 <= i < |es| ==> es[i] == es[1..][i - 1];
      }
      if forall i :: 0 <= i < |es| ==> Covered(es[i], candidate, skip, digest) {
        assert forall i :: 0 <= i < |es[1..]| ==> es[1..][i] == es[i + 1];
      }
      NeverStopsWithTrue(es[0], candidate, skip, digest);
    }
  }

  /** Short circuit: once the loop has a verdict other than `Ok(true)`, later
      entries are never looked at. */
  lemma {:induction false} CompareEntriesAppend(es: seq<Entry>, rest: seq<Entry>, candidate: Archive,
                                                skip: string -> bool, digest: seq<byte> -> string)
    ensures CompareEntries(es + rest, candidate, skip, digest) ==
      if CompareEntries(es, candidate, skip, digest) == Ok(true) then CompareEntries(rest, candidate, skip, digest)
      else CompareEntries(es, candidate, skip, digest)
  {
    if es == [] {
      assert es + rest == rest;
    } else {
      assert (es + rest)[0] == es[0];
      assert (es + rest)[1..] == es[1..] + rest;
      NeverStopsWithTrue(es[0], candidate, skip, digest);
      if EntryVerdict(es[0], candidate, skip, digest) == Continue {
        CompareEntriesAppend(es[1..], rest, candidate, skip, digest);
      }
    }
  }

  /** The checker returns `Ok(true)` exactly when both archives open, the
      comments agree, and every source entry is covered by the candidate. */
  lemma CompareTrueIff(source: Option<Archive>, candidate: Option<Archive>,
                       skip: string -> bool, digest: seq<byte> -> string)
    ensures CompareResult(source, candidate, skip, digest) == Ok(true) <==>
      source.Some? && candidate.Some? && source.value.comment == candidate.value.comment &&
      forall i :: 0 <= i < |source.value.entries| ==> Covered(source.value.entries[i], candidate.value, skip, digest)
  {
    if source.Some? && candidate.Some? {
      CompareEntriesTrueIff(source.value.entries, candidate.value, skip, digest);
    }
  }

  /** Different comments give `Ok(false)`, whatever the entries. */
  lemma CommentMismatchIsFalse(s: Archive, c: Archive, skip: string -> bool, digest: seq<byte> -> string)
    requires s.comment != c.comment
    ensures CompareResult(Some(s), Some(c), skip, digest) == Ok(false)
  {
  }

  /** Every source entry before index `i` is covered. */
  predicate ReachesEntry(s: Archive, i: nat, c: Archive, skip: string -> bool, digest: seq<byte> -> string) {
    i < |s.entries| && s.comment == c.comment &&
    forall j :: 0 <= j < i ==> Covered(s.entries[j], c, skip, digest)
  }

  /** When the loop reaches entry `i`, the checker returns whatever that entry's verdict is. */
  lemma VerdictAtReachedEntry(s: Archive, i: nat, c: Archive, skip: string -> bool, digest: seq<byte> -> string)
    requires ReachesEntry(s, i, c, skip, digest)
    requires EntryVerdict(s.entries[i], c, skip, digest).Stop?
    ensures CompareResult(Some(s), Some(c), skip, digest) == EntryVerdict(s.entries[i], c, skip, digest).result
  {
    var es := s.entries;
    var before, after := es[..i], es[i..];
    assert es == before + after;
    assert forall j :: 0 <= j < |before| ==> Covered(before[j], c, skip, digest) by {
      forall j | 0 <= j < |before| ensures Covered(before[j], c, skip, digest) {
        assert before[j] == es[j];
      }
    }
    CompareEntriesTrueIff(before, c, skip, digest);
    CompareEntriesAppend(before, after, c, skip, digest);
    assert after[0] == es[i];
  }

  /** A counterpart missing from the candidate is an error, not a mismatch. */
  lemma MissingCounterpartIsError(s: Archive, i: nat, c: Archive, skip: string -> bool, digest: seq<byte> -> string)
    requires ReachesEntry(s, i, c, skip, digest)
    requires var f := s.entries[i];
      !skip(f.header.name) && !f.faults.openFails && !f.header.isDir &&
      Lookup(c, StripSlash(f.header.name)).None?
    ensures CompareResult(Some(s), Some(c), skip, digest) == Err(NotFound(StripSlash(s.entries[i].header.name)))
  {
    VerdictAtReachedEntry(s, i, c, skip, digest);
  }

  /** A source entry whose stream does not open is an error even when it is a
      directory: the entry is opened before directories are skipped. */
  lemma SourceOpenFailureIsError(s: Archive, i: nat, c: Archive, skip: string -> bool, digest: seq<byte> -> string)
    requires ReachesEntry(s, i, c, skip, digest)
    requires !skip(s.entries[i].header.name) && s.entries[i].faults.openFails
    ensures CompareResult(Some(s), Some(c), skip, digest) == Err(EntryOpenError(s.entries[i].header.name))
  {
    VerdictAtReachedEntry(s, i, c, skip, digest);
  }

  /** A counterpart with different file info gives `Ok(false)`. */
  lemma HeaderMismatchIsFalse(s: Archive, i: nat, c: Archive, skip: string -> bool, digest: seq<byte> -> string)
    requires ReachesEntry(s, i, c, skip, digest)
    requires var f := s.entries[i]; var d := Lookup(c, StripSlash(f.header.name));
      !skip(f.header.name) && !f.faults.openFails && !f.header.isDir && d.Some? &&
      !d.value.faults.openFails && !d.value.faults.statFails && InfoOf(d.value.header) != InfoOf(f.header)
    ensures CompareResult(Some(s), Some(c), skip, digest) == Ok(false)
  {
    VerdictAtReachedEntry(s, i, c, skip, digest);
  }

  /** With equal file info, a read error on either stream gives `Ok(false)`,
      not an error, and so do different digests. */
  lemma HashTroubleIsFalse(s: Archive, i: nat, c: Archive, skip: string -> bool, digest: seq<byte> -> string)
    requires ReachesEntry(s, i, c, skip, digest)
    requires var f := s.entries[i]; var d := Lookup(c, StripSlash(f.header.name));
      !skip(f.header.name) && !f.faults.openFails && !f.header.isDir && d.Some? &&
      !d.value.faults.openFails && !d.value.faults.statFails && InfoOf(d.value.header) == InfoOf(f.header) &&
      (!Readable(d.value) || !Readable(f) || digest(d.value.content) != digest(f.content))
    ensures CompareResult(Some(s), Some(c), skip, digest) == Ok(false)
  {
    var f := s.entries[i];
    var d := Lookup(c, StripSlash(f.header.name)).value;
    assert !(CompareReaderHash(d, f, digest) == Ok(true));
    assert EntryVerdict(f, c, skip, digest) == Stop(Ok(false));
    VerdictAtReachedEntry(s, i, c, skip, digest);
  }

  /** The comparison is one-sided: entries appended to the candidate do not
      turn an `Ok(true)` into anything else. */
  lemma ExtraEntriesIgnored(s: Archive, c: Archive, extra: seq<Entry>, skip: string -> bool, digest: seq<byte> -> string)
    requires CompareResult(Some(s), Some(c), skip, digest) == Ok(true)
    ensures CompareResult(Some(s), Some(Archive(c.comment, c.entries + extra)), skip, digest) == Ok(true)
  {
    var c' := Archive(c.comment, c.entries + extra);
    CompareTrueIff(Some(s), Some(c), skip, digest);
    CompareTrueIff(Some(s), Some(c'), skip, digest);
    forall i | 0 <= i < |s.entries| ensures Covered(s.entries[i], c', skip, digest) {
      var f := s.entries[i];
      assert Covered(f, c, skip, digest);
      if !skip(f.header.name) && !f.header.isDir {
        FindEntryAppend(c.entries, extra, StripSlash(f.header.name));
      }
    }
  }

  /** Only the lookups of the source's names reach the candidate: two
      candidates that answer each of them alike give the same loop result. */
  lemma {:induction false} LookupsAgree(es: seq<Entry>, c: Archive, c': Archive, skip: string -> bool, digest: seq<byte> -> string)
    requires forall i :: 0 <= i < |es| ==> Lookup(c', StripSlash(es[i].header.name)) == Lookup(c, StripSlash(es[i].header.name))
    ensures CompareEntries(es, c', skip, digest) == CompareEntries(es, c, skip, digest)
  {
    if es != [] {
      VerdictAgrees(es[0], c, c', skip, digest);
      var rest := es[1..];
      forall i | 0 <= i < |rest|
        ensures Lookup(c', StripSlash(rest[i].header.name)) == Lookup(c, StripSlash(rest[i].header.name))
      {
        assert rest[i] == es[i + 1];
      }
      LookupsAgree(rest, c, c', skip, digest);
    }
  }

  lemma VerdictAgrees(f: Entry, c: Archive, c': Archive, skip: string -> bool, digest: seq<byte> -> string)
    requires Lookup(c', StripSlash(f.header.name)) == Lookup(c, StripSlash(f.header.name))
    ensures EntryVerdict(f, c', skip, digest) == EntryVerdict(f, c, skip, digest)
  {
  }

  /** The names under which the entries of `es` would be looked up. */
  function LookupNames(es: seq<Entry>): set<string> {
    set f | f in es :: StripSlash(f.header.name)
  }

  /** The comparison is one-sided: only the candidate entries filed under a
      name that some source entry looks up matter.  Adding, removing or
      reordering the others leaves every verdict as it was, `Ok(false)` and
      errors included. */
  lemma UnrelatedEntriesIgnored(s: Archive, c: Archive, c': Archive, skip: string -> bool, digest: seq<byte> -> string)
    requires c'.comment == c.comment
    requires FiledUnder(c'.entries, LookupNames(s.entries)) == FiledUnder(c.entries, LookupNames(s.entries))
    ensures CompareResult(Some(s), Some(c'), skip, digest) == CompareResult(Some(s), Some(c), skip, digest)
  {
    var keys := LookupNames(s.entries);
    forall i | 0 <= i < |s.entries|
      ensures Lookup(c', StripSlash(s.entries[i].header.name)) == Lookup(c, StripSlash(s.entries[i].header.name))
    {
      var n := StripSlash(s.entries[i].header.name);
      assert s.entries[i] in s.entries;
      assert n in keys;
      FindEntryFiledUnder(c.entries, keys, n);
      FindEntryFiledUnder(c'.entries, keys, n);
    }
    LookupsAgree(s.entries, c, c', skip, digest);
  }

  /** Entries that no source entry looks up, inserted anywhere in the
      candidate, change no verdict. */
  lemma UnrelatedInsertionIgnored(s: Archive, c: Archive, p: nat, extra: seq<Entry>, skip: string -> bool, digest: seq<byte> -> string)
    requires p <= |c.entries|
    requires forall e :: e in extra ==> StoredKey(e.header.name) !in LookupNames(s.entries)
    ensures CompareResult(Some(s), Some(Archive(c.comment, c.entries[..p] + extra + c.entries[p..])), skip, digest) ==
      CompareResult(Some(s), Some(c), skip, digest)
  {
    var pre, post := c.entries[..p], c.entries[p..];
    assert pre + post == c.entries;
    FiledUnderInsert(pre, extra, post, LookupNames(s.entries));
    UnrelatedEntriesIgnored(s, c, Archive(c.comment, pre + extra + post), skip, digest);
  }

  /** With a collision-free digest, `Ok(true)` means every retained file entry
      has a counterpart with the same file info and the same bytes. */
  lemma TrueMeansSameContent(s: Archive, c: Archive, skip: string -> bool, digest: seq<byte> -> string)
    requires forall x, y :: digest(x) == digest(y) ==> x == y
    requires CompareResult(Some(s), Some(c), skip, digest) == Ok(true)
    ensures forall f :: f in s.entries && !skip(f.header.name) && !f.header.isDir ==>
      var d := Lookup(c, StripSlash(f.header.name));
      d.Some? && InfoOf(d.value.header) == InfoOf(f.header) && d.value.content == f.content
  {
    CompareTrueIff(Some(s), Some(c), skip, digest);
    forall f | f in s.entries && !skip(f.header.name) && !f.header.isDir
      ensures var d := Lookup(c, StripSlash(f.header.name));
        d.Some? && InfoOf(d.value.header) == InfoOf(f.header) && d.value.content == f.content
    {
      var i :| 0 <= i < |s.entries| && s.entries[i] == f;
      assert Covered(s.entries[i], c, skip, digest);
    }
  }
}
