/** An abstract ZIP archive: an archive comment and an ordered list of entries,
    each with a header and its content bytes.  The byte format itself (local
    headers, central directory, compression) is not modelled; faults that the
    real reader or file system would raise are carried as data on each entry. */
module ZipArchive {

  newtype byte = x: int | 0 <= x < 256

  datatype Option<+T> = None | Some(value: T)

  /** The `(value, error)` pair of a Go function, as one value. */
  datatype Result<+T> = Ok(value: T) | Err(error: Error)

  /** Every error the copier and the checker can return, named after the call that raises it. */
  datatype Error =
    | SourceOpenError            // zip.OpenReader on the source path
    | CandidateOpenError         // zip.OpenReader on the candidate path
    | StatError                  // os.Stat on the source path
    | CreateError                // os.Create of the destination file
    | ChmodError                 // Chmod of the destination file
    | UserLookupError            // user.Current inside the privilege check
    | ChownError                 // syncOwners
    | EntryOpenError(name: string)     // opening an entry's content stream
    | CreateHeaderError(name: string)  // zip.Writer.CreateHeader
    | ReadError(name: string)          // reading an entry's content stream
    | WriteError(name: string)         // writing into the destination entry
    | NotFound(name: string)           // zip.Reader.Open finds no entry of that name
    | EntryStatError(name: string)     // Stat of the opened candidate entry

  /** The header fields the copier preserves and the checker compares. */
  datatype Header = Header(name: string, size: nat, mode: nat, modTime: int, isDir: bool, compression: nat)

  /** What goes wrong when the entry is read: its stream cannot be opened,
      its Stat fails, or reading fails after the given number of bytes. */
  datatype Faults = Faults(openFails: bool, statFails: bool, readFailsAfter: Option<nat>)

  const NoFaults := Faults(false, false, None)

  datatype Entry = Entry(header: Header, content: seq<byte>, faults: Faults)

  datatype Archive = Archive(comment: string, entries: seq<Entry>)

  /** True when the whole content stream of `e` can be read. */
  predicate Readable(e: Entry) {
    e.faults.readFailsAfter.None?
  }

  /** The bytes a reader of `e`'s stream obtains before the stream ends or fails. */
  function Delivered(e: Entry): (r: seq<byte>)
    ensures r <= e.content
    ensures Readable(e) ==> r == e.content
  {
    match e.faults.readFailsAfter
    case None => e.content
    case Some(k) => if k < |e.content| then e.content[..k] else e.content
  }

  /** The fs.FileInfo view of a header: the name is the last path element,
      and the compression method is not part of it. */
  datatype FileInfo = FileInfo(name: string, size: nat, mode: nat, modTime: int, isDir: bool)

  function InfoOf(h: Header): FileInfo {
    FileInfo(BaseName(h.name), h.size, h.mode, h.modTime, h.isDir)
  }

  /** `s` without its run of trailing slashes. */
  function TrimTrailingSlashes(s: string): (r: string)
    ensures r <= s && (r == [] || r[|r| - 1] != '/')
    ensures forall i :: |r| <= i < |s| ==> s[i] == '/'
  {
    if |s| > 0 && s[|s| - 1] == '/' then TrimTrailingSlashes(s[..|s| - 1]) else s
  }

  /** The index just after the last '/' of `s`, or 0 when `s` has none. */
  function LastSlashEnd(s: string): (i: nat)
    ensures i <= |s| && (i == 0 || s[i - 1] == '/')
    ensures forall j :: i <= j < |s| ==> s[j] != '/'
  {
    if s == [] then 0
    else if s[|s| - 1] == '/' then |s|
    else LastSlashEnd(s[..|s| - 1])
  }

  /** The part of `s` after its last '/'. */
  function AfterLastSlash(s: string): (r: string)
    ensures '/' !in r
    ensures s != [] && s[|s| - 1] != '/' ==> r != []
  {
    s[LastSlashEnd(s)..]
  }

  /** path.Base: the last element of a slash-separated path once trailing
      slashes are removed, "." for the empty path and "/" for a path of
      slashes only. */
  function BaseName(name: string): (r: string)
    ensures r != []
    ensures r == "/" || '/' !in r
  {
    if name == [] then "."
    else
      var t := TrimTrailingSlashes(name);
      if t == [] then "/" else AfterLastSlash(t)
  }

  /** `r` is the last element of the path `t`: a non-empty suffix of `t` that
      starts at its beginning or right after a '/', and holds no '/'. */
  predicate LastElement(t: string, r: string) {
    r != [] && '/' !in r && exists i :: 0 <= i < |t| && r == t[i..] && (i == 0 || t[i - 1] == '/')
  }

  /** BaseName is path.Base: "/" exactly for a path of slashes only, and
      otherwise the last element of the path once trailing slashes are
      removed. */
  lemma BaseNameIsLastElement(name: string)
    ensures BaseName(name) == "/" <==> name != [] && forall i :: 0 <= i < |name| ==> name[i] == '/'
    ensures TrimTrailingSlashes(name) != [] ==> LastElement(TrimTrailingSlashes(name), BaseName(name))
  {
    var t := TrimTrailingSlashes(name);
    if name == [] {
    } else if t == [] {
      assert forall i :: 0 <= i < |name| ==> name[i] == '/';
    } else {
      var i := LastSlashEnd(t);
      assert t[|t| - 1] != '/' && i < |t|;
      assert BaseName(name) == t[i..];
      assert LastElement(t, t[i..]);
      assert name[|t| - 1] == t[|t| - 1];
    }
  }

  lemma {:induction false} TrimTrailingSlashesPrefix(n: string)
    ensures TrimTrailingSlashes("/" + n) == if TrimTrailingSlashes(n) == [] then [] else "/" + TrimTrailingSlashes(n)
  {
    if |n| > 0 && n[|n| - 1] == '/' {
      assert ("/" + n)[..|"/" + n| - 1] == "/" + n[..|n| - 1];
      TrimTrailingSlashesPrefix(n[..|n| - 1]);
    } else if n == [] {
      assert ("/" + n)[..0] == [];
    }
  }

  lemma {:induction false} LastSlashEndPrefix(t: string)
    ensures LastSlashEnd("/" + t) == LastSlashEnd(t) + 1
  {
    if t != [] && t[|t| - 1] != '/' {
      assert ("/" + t)[..|"/" + t| - 1] == "/" + t[..|t| - 1];
      LastSlashEndPrefix(t[..|t| - 1]);
    }
  }

  lemma AfterLastSlashPrefix(t: string)
    ensures AfterLastSlash("/" + t) == AfterLastSlash(t)
  {
    LastSlashEndPrefix(t);
    assert ("/" + t)[LastSlashEnd(t) + 1..] == t[LastSlashEnd(t)..];
  }

  /** A leading '/' does not change the last path element of a non-empty path. */
  lemma BaseNameIgnoresLeadingSlash(n: string)
    requires n != []
    ensures BaseName("/" + n) == BaseName(n)
  {
    TrimTrailingSlashesPrefix(n);
    var t := TrimTrailingSlashes(n);
    if t != [] {
      AfterLastSlashPrefix(t);
    }
  }

  /** The key under which the archive reader files an entry: its stored name
      with every leading '/' removed. */
  function StoredKey(name: string): (k: string)
    ensures |k| <= |name| && k == name[|name| - |k|..]
    ensures forall i :: 0 <= i < |name| - |k| ==> name[i] == '/'
    ensures k == [] || k[0] != '/'
    decreases |name|
  {
    if |name| > 0 && name[0] == '/' then StoredKey(name[1..]) else name
  }

  /** The first of `es` filed under `key`. */
  function FindEntry(es: seq<Entry>, key: string): (r: Option<Entry>)
    ensures r.Some? ==> r.value in es && StoredKey(r.value.header.name) == key
    ensures r.None? ==> forall e :: e in es ==> StoredKey(e.header.name) != key
  {
    if es == [] then None
    else if StoredKey(es[0].header.name) == key then Some(es[0])
    else FindEntry(es[1..], key)
  }

  /** zip.Reader.Open, reduced to finding the entry filed under `name`. */
  function Lookup(a: Archive, name: string): Option<Entry> {
    FindEntry(a.entries, name)
  }

  /** No two of `es` are filed under the same key. */
  predicate DistinctKeys(es: seq<Entry>) {
    forall p, q :: 0 <= p < q < |es| ==> StoredKey(es[p].header.name) != StoredKey(es[q].header.name)
  }

  /** The lookup finds the first entry filed under the key, not a later one. */
  lemma {:induction false} FindEntryFirst(es: seq<Entry>, key: string, i: nat)
    requires i < |es| && StoredKey(es[i].header.name) == key
    requires forall j :: 0 <= j < i ==> StoredKey(es[j].header.name) != key
    ensures FindEntry(es, key) == Some(es[i])
  {
    if i > 0 {
      assert StoredKey(es[0].header.name) != key;
      var rest := es[1..];
      forall j | 0 <= j < i - 1 ensures StoredKey(rest[j].header.name) != key {
        assert rest[j] == es[j + 1];
      }
      FindEntryFirst(rest, key, i - 1);
      assert rest[i - 1] == es[i];
    }
  }

  /** Entries appended after a hit do not change what the lookup finds. */
  lemma {:induction false} FindEntryAppend(es: seq<Entry>, extra: seq<Entry>, key: string)
    requires FindEntry(es, key).Some?
    ensures FindEntry(es + extra, key) == FindEntry(es, key)
  {
    assert es != [];
    assert (es + extra)[0] == es[0];
    if StoredKey(es[0].header.name) == key {
      assert FindEntry(es + extra, key) == Some(es[0]);
    } else {
      assert FindEntry(es, key) == FindEntry(es[1..], key);
      assert (es + extra)[1..] == es[1..] + extra;
      FindEntryAppend(es[1..], extra, key);
    }
  }

  /** When keys are distinct, looking up an entry's key yields that entry. */
  lemma {:induction false} FindEntryUnique(es: seq<Entry>, i: nat)
    requires i < |es| && DistinctKeys(es)
    ensures FindEntry(es, StoredKey(es[i].header.name)) == Some(es[i])
  {
    if i > 0 {
      assert StoredKey(es[0].header.name) != StoredKey(es[i].header.name);
      assert DistinctKeys(es[1..]) by {
        forall p, q | 0 <= p < q < |es[1..]|
          ensures StoredKey(es[1..][p].header.name) != StoredKey(es[1..][q].header.name)
        {
          assert es[1..][p] == es[p + 1] && es[1..][q] == es[q + 1];
        }
      }
      FindEntryUnique(es[1..], i - 1);
      assert es[1..][i - 1] == es[i];
    }
  }

  /** The entries of `es` filed under one of `keys`, in their order. */
  function FiledUnder(es: seq<Entry>, keys: set<string>): seq<Entry> {
    if es == [] then []
    else if StoredKey(es[0].header.name) in keys then [es[0]] + FiledUnder(es[1..], keys)
    else FiledUnder(es[1..], keys)
  }

  /** A lookup sees only the entries filed under the key it asks for. */
  lemma {:induction false} FindEntryFiledUnder(es: seq<Entry>, keys: set<string>, key: string)
    requires key in keys
    ensures FindEntry(FiledUnder(es, keys), key) == FindEntry(es, key)
  {
    if es != [] {
      FindEntryFiledUnder(es[1..], keys, key);
      if StoredKey(es[0].header.name) in keys {
        var f := FiledUnder(es, keys);
        assert f[0] == es[0] && f[1..] == FiledUnder(es[1..], keys);
      }
    }
  }

  lemma {:induction false} FiledUnderAppend(a: seq<Entry>, b: seq<Entry>, keys: set<string>)
    ensures FiledUnder(a + b, keys) == FiledUnder(a, keys) + FiledUnder(b, keys)
  {
    if a == [] {
      assert a + b == b;
    } else {
      assert (a + b)[0] == a[0] && (a + b)[1..] == a[1..] + b;
      FiledUnderAppend(a[1..], b, keys);
    }
  }

  lemma {:induction false} FiledUnderNone(es: seq<Entry>, keys: set<string>)
    requires forall e :: e in es ==> StoredKey(e.header.name) !in keys
    ensures FiledUnder(es, keys) == []
  {
    if es != [] {
      assert es[0] in es;
      assert forall e :: e in es[1..] ==> e in es;
      FiledUnderNone(es[1..], keys);
    }
  }

  /** Inserting entries filed under none of `keys` keeps the entries filed under them. */
  lemma FiledUnderInsert(pre: seq<Entry>, extra: seq<Entry>, post: seq<Entry>, keys: set<string>)
    requires forall e :: e in extra ==> StoredKey(e.header.name) !in keys
    ensures FiledUnder(pre + extra + post, keys) == FiledUnder(pre + post, keys)
  {
    FiledUnderNone(extra, keys);
    FiledUnderAppend(pre, extra, keys);
    FiledUnderAppend(pre + extra, post, keys);
    FiledUnderAppend(pre, post, keys);
    assert FiledUnder(pre, keys) + [] == FiledUnder(pre, keys);
  }
}
