/** How the copier and the checker fit together: checking a source archive
    against its successful filtered copy, with the same exclusion predicate,
    finds them equivalent. */
module RoundTrip {
  import opened ZipArchive
  import opened ZipCopy
  import opened ZipCompare

  lemma CopiesKeepKeys(k: seq<Entry>)
    requires DistinctKeys(k)
    ensures DistinctKeys(Copies(k))
  {
    var c := Copies(k);
    forall p, q | 0 <= p < q < |c|
      ensures StoredKey(c[p].header.name) != StoredKey(c[q].header.name)
    {
      assert c[p].header == k[p].header && c[q].header == k[q].header;
    }
  }

  /** The copier and the checker agree: a successful copy passes the check.
      The archive reader files entries under their names without leading
      slashes and finds the first entry for a name, so the retained entries
      must have distinct keys, and a retained file entry may not begin with
      two slashes (one is stripped before the lookup). */
  lemma RoundTrip(a: Archive, skip: string -> bool, env: Env, digest: seq<byte> -> string)
    requires CopyResult(Some(a), skip, env).err.None?
    requires DistinctKeys(Kept(a.entries, skip))
    requires forall e :: e in Kept(a.entries, skip) && !e.header.isDir ==> AtMostOneLeadingSlash(e.header.name)
    ensures CopyResult(Some(a), skip, env).dest.Some?
    ensures CompareResult(Some(a), CopyResult(Some(a), skip, env).dest, skip, digest) == Ok(true)
  {
    var k := Kept(a.entries, skip);
    CopySucceeds(a, skip, env);
    KeptMembers(a.entries, skip);
    CopiesKeepKeys(k);
    var dest := Archive(a.comment, Copies(k));
    CompareTrueIff(Some(a), Some(dest), skip, digest);
    forall i | 0 <= i < |a.entries| ensures Covered(a.entries[i], dest, skip, digest) {
      var f := a.entries[i];
      if !skip(f.header.name) {
        assert f in k;
        var j :| 0 <= j < |k| && k[j] == f;
        assert Faultless(k[j], 0 + j, env);
        if !f.header.isDir {
          StripSlashReachesStoredKey(f.header.name);
          FindEntryUnique(Copies(k), j);
          assert Copies(k)[j] == Copy(f);
        }
      }
    }
  }

  /** The exclusion pattern `~$`: names ending in '~'. */
  predicate BackupFile(name: string) {
    |name| > 0 && name[|name| - 1] == '~'
  }

  predicate NothingExcluded(name: string) {
    false
  }

  const FileA := Entry(Header("a.txt", 2, 420, 100, false, 8), [104, 105], NoFaults)
  const FileB := Entry(Header("b.txt~", 1, 420, 101, false, 8), [120], NoFaults)
  const DirC := Entry(Header("c/", 0, 493, 102, true, 0), [], NoFaults)
  const Rev1 := Archive("rev1", [FileA, FileB, DirC])

  /** Nothing fails: not root, every file-system call succeeds. */
  const Quiet := Env(false, false, false, NotRoot, false, {}, {})

  const Rev1Copy := Archive("rev1", [FileA, DirC])

  /** Copying {a.txt, b.txt~, c/} under `~$` yields {a.txt, c/} with the comment "rev1". */
  lemma CopyScenario()
    ensures CopyResult(Some(Rev1), BackupFile, Quiet) == CopyOutcome(None, Some(Rev1Copy))
  {
    assert !BackupFile("a.txt") && BackupFile("b.txt~") && !BackupFile("c/");
    assert Kept([DirC], BackupFile) == [DirC] by {
      assert [DirC][1..] == [];
    }
    assert Kept([FileB, DirC], BackupFile) == [DirC] by {
      assert [FileB, DirC][1..] == [DirC];
    }
    assert Kept(Rev1.entries, BackupFile) == [FileA, DirC] by {
      assert Rev1.entries[1..] == [FileB, DirC];
    }
    CopySucceeds(Rev1, BackupFile, Quiet);
    assert Copies([FileA, DirC]) == [FileA, DirC];
  }

  /** The copy passes the check under the same pattern. */
  lemma CheckScenario(digest: seq<byte> -> string)
    ensures CompareResult(Some(Rev1), Some(Rev1Copy), BackupFile, digest) == Ok(true)
  {
    assert StripSlash("a.txt") == "a.txt" && StoredKey("a.txt") == "a.txt";
    assert FindEntry(Rev1Copy.entries, "a.txt") == Some(FileA);
    assert Covered(FileA, Rev1Copy, BackupFile, digest);
    assert BackupFile("b.txt~");
    assert Covered(DirC, Rev1Copy, BackupFile, digest);
    CompareTrueIff(Some(Rev1), Some(Rev1Copy), BackupFile, digest);
  }

  /** Checked with nothing excluded, the copy fails with an error, not
      `Ok(false)`: b.txt~ has no counterpart. */
  lemma CheckNothingExcludedScenario(digest: seq<byte> -> string)
    ensures CompareResult(Some(Rev1), Some(Rev1Copy), NothingExcluded, digest) == Err(NotFound("b.txt~"))
  {
    assert StripSlash("a.txt") == "a.txt" && StoredKey("a.txt") == "a.txt";
    assert FindEntry(Rev1Copy.entries, "a.txt") == Some(FileA);
    assert Covered(FileA, Rev1Copy, NothingExcluded, digest);
    assert StripSlash("b.txt~") == "b.txt~";
    assert StoredKey("c/") == "c/";
    assert FindEntry(Rev1Copy.entries, "b.txt~") == None;
    MissingCounterpartIsError(Rev1, 1, Rev1Copy, NothingExcluded, digest);
  }

  /** A source entry stored as `/n` (for example `/a/b.txt`) is found under
      `n` (`a/b.txt`) in the candidate and compares equal to an entry stored
      under that name with the same fields and bytes. */
  lemma LeadingSlashIsStripped(n: string, h: Header, content: seq<byte>, digest: seq<byte> -> string)
    requires n != [] && n[0] != '/' && h.name == n && !h.isDir
    ensures var src := Entry(h.(name := "/" + n), content, NoFaults);
      CompareResult(Some(Archive([], [src])), Some(Archive([], [Entry(h, content, NoFaults)])), NothingExcluded, digest) == Ok(true)
  {
    var src := Entry(h.(name := "/" + n), content, NoFaults);
    var cand := Archive([], [Entry(h, content, NoFaults)]);
    assert StripSlash("/" + n) == n by {
      assert ("/" + n)[1..] == n;
    }
    assert FindEntry(cand.entries, n) == Some(Entry(h, content, NoFaults));
    BaseNameIgnoresLeadingSlash(n);
    assert InfoOf(src.header) == InfoOf(h);
    assert Covered(src, cand, NothingExcluded, digest);
    CompareTrueIff(Some(Archive([], [src])), Some(cand), NothingExcluded, digest);
  }
}
