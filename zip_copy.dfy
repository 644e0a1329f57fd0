/** The filtered copier: CopyZipWithoutFile writes every entry of the source
    archive whose name the exclusion predicate does not match into a new
    archive, with the same header, the same content and the same archive
    comment, and stops at the first error. */
module ZipCopy {
  import opened ZipArchive

  /** The outcome of the privilege check: running as root, not root, or the
      current user could not be determined. */
  datatype RootCheck = Root | NotRoot | CheckFails

  /** How the file system answers each setup call, and at which writer slots
      (the number of entries already written) CreateHeader or a write fails. */
  datatype Env = Env(
    statFails: bool,
    createFails: bool,
    chmodFails: bool,
    root: RootCheck,
    chownFails: bool,
    headerFaults: set<nat>,
    writeFaults: set<nat>)

  /** The zip.Writer over the destination file: the comment it will store and
      the entries written so far, each with the header and the bytes given. */
  class ZipWriter {
    var comment: string
    var entries: seq<Entry>
    const headerFaults: set<nat>
    const writeFaults: set<nat>

    constructor (headerFaults: set<nat>, writeFaults: set<nat>)
      ensures comment == [] && entries == []
      ensures this.headerFaults == headerFaults && this.writeFaults == writeFaults
    {
      comment := [];
      entries := [];
      this.headerFaults := headerFaults;
      this.writeFaults := writeFaults;
    }

    method SetComment(c: string)
      modifies this
      ensures comment == c && entries == old(entries)
    {
      comment := c;
    }

    /** Starts a new entry with header `h`; fails, adding nothing, at a faulty slot. */
    method CreateHeader(h: Header) returns (err: Option<Error>)
      modifies this
      ensures comment == old(comment)
      ensures err.Some? <==> |old(entries)| in headerFaults
      ensures err.Some? ==> err == Some(CreateHeaderError(h.name)) && entries == old(entries)
      ensures err.None? ==> entries == old(entries) + [Entry(h, [], NoFaults)]
    {
      if |entries| in headerFaults {
        err := Some(CreateHeaderError(h.name));
      } else {
        entries := entries + [Entry(h, [], NoFaults)];
        err := None;
      }
    }

    /** Appends `data` to the entry started last; fails, writing nothing, at a faulty slot. */
    method Write(data: seq<byte>) returns (err: Option<Error>)
      requires entries != []
      modifies this
      ensures comment == old(comment)
      ensures var n := |old(entries)|; var last := old(entries)[n - 1];
        if n - 1 in writeFaults then err == Some(WriteError(last.header.name)) && entries == old(entries)
        else err.None? && entries == old(entries)[..n - 1] + [Entry(last.header, last.content + data, last.faults)]
    {
      var k := |entries| - 1;
      var last := entries[k];
      if k in writeFaults {
        err := Some(WriteError(last.header.name));
      } else {
        entries := entries[..k] + [Entry(last.header, last.content + data, last.faults)];
        err := None;
      }
    }
  }

  /** The copy of `e` in the destination: same header, same bytes, no faults. */
  function Copy(e: Entry): Entry {
    Entry(e.header, e.content, NoFaults)
  }

  /** An entry left behind by an aborted copy of `e`: `e`'s header and a prefix of its bytes. */
  predicate PartialCopyOf(w: Entry, e: Entry) {
    w.header == e.header && w.content <= e.content && w.faults == NoFaults
  }

  function Copies(es: seq<Entry>): (r: seq<Entry>)
    ensures |r| == |es|
    ensures forall i :: 0 <= i < |es| ==> r[i] == Copy(es[i])
  {
    seq(|es|, i requires 0 <= i < |es| => Copy(es[i]))
  }

  /** The entries of `es` that `skip` does not exclude, in their order. */
  function Kept(es: seq<Entry>, skip: string -> bool): seq<Entry>
  {
    if es == [] then []
    else if skip(es[0].header.name) then Kept(es[1..], skip)
    else [es[0]] + Kept(es[1..], skip)
  }

  /** No step of copying `e` into writer slot `slot` fails.  An empty stream
      never reaches Write, so a faulty write slot is harmless to it. */
  predicate Faultless(e: Entry, slot: nat, env: Env) {
    !e.faults.openFails && slot !in env.headerFaults && (slot in env.writeFaults ==> e.content == []) && Readable(e)
  }

  /** Every one of `k`, written from slot `from` on, is copied without a fault. */
  predicate AllFaultless(k: seq<Entry>, from: nat, env: Env) {
    forall j :: 0 <= j < |k| ==> Faultless(k[j], from + j, env)
  }

  /** What one step of the copy loop returns and appends to the writer. */
  datatype Step = Step(err: Option<Error>, out: seq<Entry>)

  /** Copying one retained entry into writer slot `slot`: f.Open, CreateHeader,
      io.Copy.  io.Copy calls Write only when some bytes were read. */
  function CopyEntry(e: Entry, slot: nat, env: Env): (s: Step)
    ensures s.err.None? <==> Faultless(e, slot, env)
    ensures s.err.None? ==> s.out == [Copy(e)]
    ensures |s.out| <= 1 && forall w :: w in s.out ==> PartialCopyOf(w, e)
  {
    var name := e.header.name;
    if e.faults.openFails then Step(Some(EntryOpenError(name)), [])
    else if slot in env.headerFaults then Step(Some(CreateHeaderError(name)), [])
    else if slot in env.writeFaults && Delivered(e) != [] then Step(Some(WriteError(name)), [Entry(e.header, [], NoFaults)])
    else if !Readable(e) then Step(Some(ReadError(name)), [Entry(e.header, Delivered(e), NoFaults)])
    else Step(None, [Copy(e)])
  }

  /** The error the loop returns (if any) and the entries the writer then holds. */
  datatype Progress = Progress(err: Option<Error>, written: seq<Entry>)

  /** The copy loop over `es`, starting with `acc` already written. */
  function CopyLoop(es: seq<Entry>, skip: string -> bool, env: Env, acc: seq<Entry>): Progress
    decreases |es|
  {
    if es == [] then Progress(None, acc)
    else if skip(es[0].header.name) then CopyLoop(es[1..], skip, env, acc)
    else
      var s := CopyEntry(es[0], |acc|, env);
      if s.err.Some? then Progress(s.err, acc + s.out)
      else CopyLoop(es[1..], skip, env, acc + s.out)
  }

  /** The error of the setup calls before the writer is created, if any. */
  function SetupError(source: Option<Archive>, env: Env): Option<Error> {
    if source.None? then Some(SourceOpenError)
    else if env.statFails then Some(StatError)
    else if env.createFails then Some(CreateError)
    else if env.chmodFails then Some(ChmodError)
    else if env.root == Root && env.chownFails then Some(ChownError)
    else None
  }

  /** What the copier returns, and the writer's final state when it created one. */
  datatype CopyOutcome = CopyOutcome(err: Option<Error>, dest: Option<Archive>)

  /** The reference definition of CopyZipWithoutFile. */
  function CopyResult(source: Option<Archive>, skip: string -> bool, env: Env): CopyOutcome {
    if SetupError(source, env).Some? then CopyOutcome(SetupError(source, env), None)
    else if env.root == CheckFails then CopyOutcome(Some(UserLookupError), Some(Archive([], [])))
    else
      var p := CopyLoop(source.value.entries, skip, env, []);
      CopyOutcome(p.err, Some(Archive(source.value.comment, p.written)))
  }

  /** The copier.  `dest` is the writer over the destination file, or null when
      the call failed before creating it. */
  method CopyZipWithoutFile(source: Option<Archive>, skip: string -> bool, env: Env)
    returns (err: Option<Error>, dest: ZipWriter?)
    ensures err == CopyResult(source, skip, env).err
    ensures dest == null <==> CopyResult(source, skip, env).dest.None?
    ensures dest != null ==>
      fresh(dest) && Archive(dest.comment, dest.entries) == CopyResult(source, skip, env).dest.value
  {
    if source.None? {
      return Some(SourceOpenError), null;
    }
    var origZip := source.value;
    if env.statFails {
      return Some(StatError), null;
    }
    if env.createFails {
      return Some(CreateError), null;
    }
    if env.chmodFails {
      return Some(ChmodError), null;
    }
    // amIRoot: (false, error) when the current user cannot be determined
    var doChown := env.root == Root;
    err := if env.root == CheckFails then Some(UserLookupError) else None;
    if doChown {
      if env.chownFails {
        return Some(ChownError), null;
      }
      err := None;
    }
    dest := new ZipWriter(env.headerFaults, env.writeFaults);
    // the error of the privilege check is still in `err` here
    if err.Some? {
      return err, dest;
    }
    dest.SetComment(origZip.comment);
    ghost var goal := CopyLoop(origZip.entries, skip, env, []);
    var i := 0;
    while i < |origZip.entries|
      invariant i <= |origZip.entries|
      invariant dest.comment == origZip.comment
      invariant dest.headerFaults == env.headerFaults && dest.writeFaults == env.writeFaults
      invariant CopyLoop(origZip.entries[i..], skip, env, dest.entries) == goal
    {
      var f := origZip.entries[i];
      assert origZip.entries[i..][1..] == origZip.entries[i + 1..];
      if skip(f.header.name) {
        i := i + 1;
        continue;
      }
      if f.faults.openFails {
        return Some(EntryOpenError(f.header.name)), dest;
      }
      ghost var before := dest.entries;
      err := dest.CreateHeader(f.header);
      if err.Some? {
        return err, dest;
      }
      // io.Copy: the bytes read are written, then a read error is reported
      var data := Delivered(f);
      if data != [] {
        err := dest.Write(data);
        if err.Some? {
          return err, dest;
        }
      }
      assert (before + [Entry(f.header, [], NoFaults)])[..|before|] == before;
      assert [] + data == data;
      assert dest.entries == before + [Entry(f.header, data, NoFaults)];
      if !Readable(f) {
        return Some(ReadError(f.header.name)), dest;
      }
      i := i + 1;
    }
    return None, dest;
  }

  /** Kept is a filter: it keeps exactly the entries `skip` does not match. */
  lemma {:induction false} KeptMembers(es: seq<Entry>, skip: string -> bool)
    ensures forall e :: e in Kept(es, skip) <==> e in es && !skip(e.header.name)
  {
    if es != [] {
      KeptMembers(es[1..], skip);
      assert es == [es[0]] + es[1..];
    }
  }

  lemma AllFaultlessCons(e: Entry, rest: seq<Entry>, from: nat, env: Env)
    ensures AllFaultless([e] + rest, from, env) <==> Faultless(e, from, env) && AllFaultless(rest, from + 1, env)
  {
    var k := [e] + rest;
    if Faultless(e, from, env) && AllFaultless(rest, from + 1, env) {
      forall j | 0 <= j < |k| ensures Faultless(k[j], from + j, env) {
        if j > 0 {
          assert k[j] == rest[j - 1];
        }
      }
    }
    if AllFaultless(k, from, env) {
      assert Faultless(k[0], from + 0, env);
      forall j | 0 <= j < |rest| ensures Faultless(rest[j], from + 1 + j, env) {
        assert k[j + 1] == rest[j];
      }
    }
  }

  lemma CopiesCons(e: Entry, rest: seq<Entry>)
    ensures Copies([e] + rest) == [Copy(e)] + Copies(rest)
  {
    assert forall j :: 1 <= j < |rest| + 1 ==> ([e] + rest)[j] == rest[j - 1];
  }

  /** The loop succeeds exactly when no retained entry meets a fault. */
  lemma {:induction false} CopyLoopSucceedsIff(es: seq<Entry>, skip: string -> bool, env: Env, acc: seq<Entry>)
    ensures CopyLoop(es, skip, env, acc).err.None? <==> AllFaultless(Kept(es, skip), |acc|, env)
  {
    if es != [] {
      if skip(es[0].header.name) {
        CopyLoopSucceedsIff(es[1..], skip, env, acc);
      } else {
        var rest := Kept(es[1..], skip);
        assert Kept(es, skip) == [es[0]] + rest;
        AllFaultlessCons(es[0], rest, |acc|, env);
        if Faultless(es[0], |acc|, env) {
          CopyLoopSucceedsIff(es[1..], skip, env, acc + [Copy(es[0])]);
        }
      }
    }
  }

  /** A successful loop leaves the copies of the retained entries after `acc`. */
  lemma {:induction false} CopyLoopWritesKept(es: seq<Entry>, skip: string -> bool, env: Env, acc: seq<Entry>)
    requires CopyLoop(es, skip, env, acc).err.None?
    ensures CopyLoop(es, skip, env, acc).written == acc + Copies(Kept(es, skip))
  {
    if es != [] {
      if skip(es[0].header.name) {
        CopyLoopWritesKept(es[1..], skip, env, acc);
      } else {
        var rest := Kept(es[1..], skip);
        assert Kept(es, skip) == [es[0]] + rest;
        CopyLoopWritesKept(es[1..], skip, env, acc + [Copy(es[0])]);
        CopiesAfter(acc, es[0], rest);
      }
    }
  }

  lemma CopiesAfter(acc: seq<Entry>, e: Entry, rest: seq<Entry>)
    ensures acc + [Copy(e)] + Copies(rest) == acc + Copies([e] + rest)
  {
    CopiesCons(e, rest);
  }

  /** The loop outcome `p` is that of stopping at the retained entry `k[n]`,
      written into slot `|acc| + n`: the entries before it were copied whole,
      its step produced the error, and nothing after it was written. */
  predicate StopsAt(k: seq<Entry>, n: nat, env: Env, acc: seq<Entry>, p: Progress) {
    n < |k| && AllFaultless(k[..n], |acc|, env) &&
    p == Progress(CopyEntry(k[n], |acc| + n, env).err, acc + Copies(k[..n]) + CopyEntry(k[n], |acc| + n, env).out)
  }

  lemma StopsAtCons(e: Entry, rest: seq<Entry>, n: nat, env: Env, acc: seq<Entry>, p: Progress)
    requires Faultless(e, |acc|, env) && StopsAt(rest, n, env, acc + [Copy(e)], p)
    ensures StopsAt([e] + rest, n + 1, env, acc, p)
  {
    var k := [e] + rest;
    assert k[n + 1] == rest[n];
    assert k[..n + 1] == [e] + rest[..n];
    AllFaultlessCons(e, rest[..n], |acc|, env);
    CopiesCons(e, rest[..n]);
    assert acc + Copies(k[..n + 1]) == acc + [Copy(e)] + Copies(rest[..n]);
  }

  /** When the loop fails, it stopped at the first retained entry that met a fault. */
  lemma {:induction false} CopyLoopStopsAtFirstFault(es: seq<Entry>, skip: string -> bool, env: Env, acc: seq<Entry>)
    requires CopyLoop(es, skip, env, acc).err.Some?
    ensures exists n: nat :: StopsAt(Kept(es, skip), n, env, acc, CopyLoop(es, skip, env, acc))
  {
    var k := Kept(es, skip);
    var rest := Kept(es[1..], skip);
    if skip(es[0].header.name) {
      CopyLoopStopsAtFirstFault(es[1..], skip, env, acc);
      assert k == rest;
    } else {
      assert k == [es[0]] + rest;
      var s := CopyEntry(es[0], |acc|, env);
      if s.err.Some? {
        assert k[..0] == [] && acc + Copies(k[..0]) == acc;
        assert StopsAt(k, 0, env, acc, CopyLoop(es, skip, env, acc));
      } else {
        var acc' := acc + s.out;
        CopyLoopStopsAtFirstFault(es[1..], skip, env, acc');
        var n: nat :| StopsAt(rest, n, env, acc', CopyLoop(es[1..], skip, env, acc'));
        StopsAtCons(es[0], rest, n, env, acc, CopyLoop(es, skip, env, acc));
      }
    }
  }

  /** On success the destination holds exactly the retained entries, copied
      whole and in order, under the source's comment; success happens exactly
      when setup goes through and no retained entry meets a fault. */
  lemma CopySucceeds(a: Archive, skip: string -> bool, env: Env)
    ensures CopyResult(Some(a), skip, env).err.None? <==>
      SetupError(Some(a), env).None? && env.root != CheckFails && AllFaultless(Kept(a.entries, skip), 0, env)
    ensures CopyResult(Some(a), skip, env).err.None? ==>
      CopyResult(Some(a), skip, env).dest == Some(Archive(a.comment, Copies(Kept(a.entries, skip))))
  {
    CopyLoopSucceedsIff(a.entries, skip, env, []);
    if CopyResult(Some(a), skip, env).err.None? {
      CopyLoopWritesKept(a.entries, skip, env, []);
    }
    assert [] + Copies(Kept(a.entries, skip)) == Copies(Kept(a.entries, skip));
  }

  /** A failing entry stops the copy at once: the destination has the source's
      comment, whole copies of the retained entries before the failing one,
      what the failing step left, and nothing from any later entry. */
  lemma CopyAbortsAtFirstFault(a: Archive, skip: string -> bool, env: Env)
    requires SetupError(Some(a), env).None? && env.root != CheckFails
    requires CopyResult(Some(a), skip, env).err.Some?
    ensures var k := Kept(a.entries, skip);
      exists n: nat :: StopsAt(k, n, env, [], CopyLoop(a.entries, skip, env, [])) && !Faultless(k[n], n, env) &&
        CopyResult(Some(a), skip, env) ==
          CopyOutcome(CopyEntry(k[n], n, env).err, Some(Archive(a.comment, Copies(k[..n]) + CopyEntry(k[n], n, env).out)))
  {
    var k := Kept(a.entries, skip);
    CopyLoopStopsAtFirstFault(a.entries, skip, env, []);
    var n: nat :| StopsAt(k, n, env, [], CopyLoop(a.entries, skip, env, []));
    assert [] + Copies(k[..n]) == Copies(k[..n]);
  }

  /** A failed privilege check is not best-effort: its error survives to the
      check after the writer is created, and the copy ends before the comment
      or any entry is written. */
  lemma PrivilegeCheckFailureAborts(a: Archive, skip: string -> bool, env: Env)
    requires !env.statFails && !env.createFails && !env.chmodFails
    requires env.root == CheckFails
    ensures CopyResult(Some(a), skip, env) == CopyOutcome(Some(UserLookupError), Some(Archive([], [])))
  {
  }

  /** Whole copies of `k[..n]` followed by partial copies of `k[n]` all come from `k`. */
  lemma WrittenComesFromKept(k: seq<Entry>, n: nat, out: seq<Entry>)
    requires n <= |k|
    requires forall w :: w in out ==> n < |k| && PartialCopyOf(w, k[n])
    ensures forall w :: w in Copies(k[..n]) + out ==> exists e :: e in k && PartialCopyOf(w, e)
  {
    forall w | w in Copies(k[..n]) + out ensures exists e :: e in k && PartialCopyOf(w, e) {
      if w in out {
        assert k[n] in k;
      } else {
        var j :| 0 <= j < n && Copies(k[..n])[j] == w;
        assert PartialCopyOf(w, k[j]) && k[j] in k;
      }
    }
  }

  /** Whatever the outcome, no excluded entry reaches the destination: every
      entry there is a whole or partial copy of a retained source entry. */
  lemma ExcludedEntriesNeverWritten(source: Option<Archive>, skip: string -> bool, env: Env)
    requires CopyResult(source, skip, env).dest.Some?
    ensures forall w :: w in CopyResult(source, skip, env).dest.value.entries ==>
      !skip(w.header.name) && exists e :: e in source.value.entries && PartialCopyOf(w, e)
  {
    var a := source.value;
    var k := Kept(a.entries, skip);
    var r := CopyResult(source, skip, env);
    KeptMembers(a.entries, skip);
    if env.root != CheckFails {
      if r.err.None? {
        CopySucceeds(a, skip, env);
        assert k[..|k|] == k && Copies(k) + [] == Copies(k);
        WrittenComesFromKept(k, |k|, []);
      } else {
        CopyAbortsAtFirstFault(a, skip, env);
        var n: nat :| StopsAt(k, n, env, [], CopyLoop(a.entries, skip, env, [])) && !Faultless(k[n], n, env) &&
          r == CopyOutcome(CopyEntry(k[n], n, env).err, Some(Archive(a.comment, Copies(k[..n]) + CopyEntry(k[n], n, env).out)));
        WrittenComesFromKept(k, n, CopyEntry(k[n], n, env).out);
      }
    }
  }
}
