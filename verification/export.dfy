/** Saving results: the archive name chosen in the downloads directory by probing
    `<base>.zip`, `<base>_1.zip`, `<base>_2.zip`, ... through `Path.ChangeExtension`, and
    the archive itself, one entry per file of the results directory whose bytes are
    moved through a 4096-byte buffer. Compression is not modelled: an archive is its
    list of entries. */
module Export {
  import opened Basics
  import opened Text
  import opened Paths
  import Probe

  // ---------------------------------------------------------------------------------
  // The archive name

  /** The `k`-th archive name probed for `base`, computed as the source does it. */
  function ArchiveCandidate(base: string, k: nat): string {
    ChangeExtension(if k == 0 then base else base + "_" + NatToString(k), ".zip")
  }

  /** For a base without '.', the probes are `<base>.zip`, `<base>_1.zip`, `<base>_2.zip`, ...:
      the first suffix is 1. */
  lemma ArchiveCandidateOfUndotted(base: string, k: nat)
    requires '.' !in base
    ensures ArchiveCandidate(base, k)
         == if k == 0 then base + ".zip" else base + "_" + NatToString(k) + ".zip"
  {
    if k > 0 {
      var s := NatToString(k);
      DigitsExclude(s, '.');
      ChangeExtensionOfUndotted(base + "_" + s, ".zip");
    }
  }

  /** For a base with a '.', `ChangeExtension` cuts every suffix off again: all probes are
      the same name, so once that name exists the loop never ends. */
  lemma DottedBaseCollapses(base: string, k: nat)
    requires '.' in base
    ensures ArchiveCandidate(base, k) == ArchiveCandidate(base, 0)
  {
    if k > 0 {
      var s := NatToString(k);
      DigitsExclude(s, '.');
      assert '.' !in "_" + s;
      assert base + "_" + s == base + ("_" + s);
      ChangeExtensionDropsTail(base, "_" + s, ".zip");
    }
  }

  /** For a base without '.', different probes name different archives. */
  lemma ArchiveCandidatesDistinct(base: string, i: nat, j: nat)
    requires '.' !in base && i < j
    ensures ArchiveCandidate(base, i) != ArchiveCandidate(base, j)
  {
    ArchiveCandidateOfUndotted(base, i);
    ArchiveCandidateOfUndotted(base, j);
    if i == 0 {
      PlainDiffersFromSuffixed(base, NatToString(j), ".zip");
    } else if ArchiveCandidate(base, i) == ArchiveCandidate(base, j) {
      InfixDetermined(base, NatToString(i), NatToString(j), ".zip");
      NatToStringInjective(i, j);
    }
  }

  /** The probe order for `base`, as a function of the probe number. */
  function ArchiveNames(base: string): (c: nat -> string)
    ensures forall k :: c(k) == ArchiveCandidate(base, k)
    ensures '.' !in base ==> Probe.Distinct(c)
  {
    var c := (k: nat) => ArchiveCandidate(base, k);
    if '.' !in base then
      forall i: nat, j: nat | i < j
        ensures c(i) != c(j)
      {
        ArchiveCandidatesDistinct(base, i, j);
      }
      c
    else
      c
  }

  /** Probe `k` is the first archive name not in `taken`. */
  ghost predicate FirstFreeArchive(base: string, taken: set<string>, k: nat) {
    && ArchiveCandidate(base, k) !in taken
    && forall j :: 0 <= j < k ==> ArchiveCandidate(base, j) in taken
  }

  /** The loop stops exactly when the base has no '.' or its first probe is free. */
  predicate ArchiveNameTerminates(base: string, taken: set<string>) {
    '.' !in base || ArchiveCandidate(base, 0) !in taken
  }

  /** A rejected probe shrinks what is left to try (for a dotted base no probe is rejected
      while the loop can still end). */
  lemma ArchiveProbeShrinks(base: string, taken: set<string>, k: nat)
    requires ArchiveNameTerminates(base, taken)
    requires ArchiveCandidate(base, k) in taken && ('.' in base ==> k == 0)
    ensures |taken - Probe.Tried(ArchiveNames(base), k + 1)| < |taken - Probe.Tried(ArchiveNames(base), k)|
  {
    Probe.ProbeShrinks(ArchiveNames(base), k, taken);
  }

  /** The probes rejected so far are at most as many as the names taken. */
  lemma ArchiveProbeBound(base: string, taken: set<string>, k: nat)
    requires Probe.Tried(ArchiveNames(base), k) <= taken && ('.' in base ==> k == 0)
    ensures k <= |taken|
  {
    if '.' !in base {
      Probe.TriedCount(ArchiveNames(base), k);
      Probe.SubsetNoLarger(Probe.Tried(ArchiveNames(base), k), taken);
    }
  }

  /** The archive-name loop of `SaveResults`: the name and its suffix number. */
  method ChooseArchiveName(base: string, taken: set<string>) returns (name: string, index: nat)
    requires ArchiveNameTerminates(base, taken)
    ensures name == ArchiveCandidate(base, index) && name !in taken
    ensures FirstFreeArchive(base, taken, index)
    ensures index <= |taken|
  {
    ghost var c := ArchiveNames(base);
    name := ChangeExtension(base, ".zip");
    index := 0;
    while name in taken
      invariant name == ArchiveCandidate(base, index)
      invariant Probe.Tried(c, index) <= taken
      invariant '.' in base ==> index == 0
      decreases |taken - Probe.Tried(c, index)|
    {
      ArchiveProbeShrinks(base, taken, index);
      index := index + 1;
      name := ChangeExtension(base + "_" + NatToString(index), ".zip");
    }
    ArchiveProbeBound(base, taken, index);
  }

  /** When the base has a '.' and its archive name is taken, no probe is ever free: the
      loop cannot end. */
  lemma DottedBaseNeverFree(base: string, taken: set<string>, k: nat)
    requires !ArchiveNameTerminates(base, taken)
    ensures ArchiveCandidate(base, k) in taken
  {
    DottedBaseCollapses(base, k);
  }

  // ---------------------------------------------------------------------------------
  // The archive contents

  const BufferSize := 4096

  /** An archive entry: the file name without directories and the bytes written to it. */
  datatype ZipEntry = ZipEntry(name: string, data: seq<byte>)

  /** One `Read(buffer, 0, buffer.Length)` of a stream over `source` positioned at
      `offset`: at least one byte unless the stream is exhausted, at most a buffer full. */
  method Read(source: seq<byte>, offset: nat, buffer: array<byte>) returns (count: nat)
    requires offset <= |source| && buffer.Length > 0
    modifies buffer
    ensures offset + count <= |source| && count <= buffer.Length
    ensures count == 0 <==> offset == |source|
    ensures buffer[..count] == source[offset..offset + count]
  {
    if offset == |source| {
      count := 0;
    } else {
      count :| 0 < count <= buffer.Length && offset + count <= |source|;
      forall i | 0 <= i < count {
        buffer[i] := source[offset + i];
      }
    }
  }

  /** The copy loop: read into the buffer, write what was read, until a read returns
      nothing. What reaches the entry is the whole file, whatever the read sizes. */
  method CopyStream(source: seq<byte>) returns (written: seq<byte>)
    ensures written == source
  {
    var buffer := new byte[BufferSize];
    var offset: nat := 0;
    written := [];
    var count: nat := Read(source, offset, buffer);
    while count > 0
      invariant offset <= |source| && offset + count <= |source|
      invariant count <= buffer.Length
      invariant written == source[..offset]
      invariant buffer[..count] == source[offset..offset + count]
      invariant count == 0 <==> offset == |source|
      decreases |source| - offset
    {
      written := written + buffer[..count];
      offset := offset + count;
      count := Read(source, offset, buffer);
    }
  }

  /** The entries of an archive made from `files`, in that order. */
  function Entries(files: seq<string>, dir: map<string, seq<byte>>): (entries: seq<ZipEntry>)
    requires forall i :: 0 <= i < |files| ==> files[i] in dir
  {
    if files == [] then []
    else Entries(files[..|files| - 1], dir) + [ZipEntry(files[|files| - 1], dir[files[|files| - 1]])]
  }

  /** One entry per file, in listing order, named by the file and holding its bytes. */
  lemma {:induction false} EntriesAt(files: seq<string>, dir: map<string, seq<byte>>)
    requires forall i :: 0 <= i < |files| ==> files[i] in dir
    ensures |Entries(files, dir)| == |files|
    ensures forall i :: 0 <= i < |files| ==> Entries(files, dir)[i] == ZipEntry(files[i], dir[files[i]])
  {
    if files != [] {
      EntriesAt(files[..|files| - 1], dir);
    }
  }

  /** The `foreach` over the results directory: one entry per listed file. */
  method ZipFiles(files: seq<string>, dir: map<string, seq<byte>>) returns (entries: seq<ZipEntry>)
    requires forall i :: 0 <= i < |files| ==> files[i] in dir
    ensures entries == Entries(files, dir)
  {
    entries := [];
    for i := 0 to |files|
      invariant entries == Entries(files[..i], dir)
    {
      var data := CopyStream(dir[files[i]]);
      entries := entries + [ZipEntry(files[i], data)];
      assert files[..i + 1][..i] == files[..i];
    }
    assert files[..|files|] == files;
  }

  /** Extracting an archive: each entry becomes a file (a later entry wins a name clash). */
  function Unzip(entries: seq<ZipEntry>): map<string, seq<byte>> {
    if entries == [] then map[]
    else Unzip(entries[..|entries| - 1])[entries[|entries| - 1].name := entries[|entries| - 1].data]
  }

  lemma {:induction false} UnzipEntries(files: seq<string>, dir: map<string, seq<byte>>)
    requires forall i :: 0 <= i < |files| ==> files[i] in dir
    ensures Unzip(Entries(files, dir)) == map f | f in files :: dir[f]
  {
    if files != [] {
      var init := files[..|files| - 1];
      UnzipEntries(init, dir);
      var es := Entries(files, dir);
      assert es[..|es| - 1] == Entries(init, dir);
      assert forall f :: f in files <==> f in init || f == files[|files| - 1];
    }
  }

  /** Round trip: when the listing names every file of the directory, extracting the
      archive gives back the directory, names and bytes. */
  lemma ArchiveRestoresDirectory(files: seq<string>, dir: map<string, seq<byte>>)
    requires forall f :: f in dir <==> f in files
    ensures Unzip(Entries(files, dir)) == dir
  {
    UnzipEntries(files, dir);
  }
}
