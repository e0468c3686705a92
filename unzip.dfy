/** The entry loop of Main.unzipJRE and its buffered copy of each file entry. */
module Unzip {
  import opened Files

  /** The length of the copy buffer (`new byte[1024]`, line 285). */
  const BufferSize: nat := 1024

  /** ZipEntry.isDirectory: the entry name ends with '/'. */
  predicate IsDirectoryEntry(e: ZipEntry)
  {
    |e.name| > 0 && e.name[|e.name| - 1] == '/'
  }

  /** The file `new File(targetDirectory.getAbsolutePath() + File.separator +
      zipEntry.getName())` stands for (line 291). */
  function EntryPath(target: string, name: string): string
  {
    Normalize(target + [Separator] + name)
  }

  /** What the i-th call of getNextEntry returns: the next entry in stream order, or null
      once the stream is exhausted. */
  function NextEntry(entries: seq<ZipEntry>, i: nat): Option<ZipEntry>
  {
    if i < |entries| then Some(entries[i]) else None
  }

  /** Entry `e` throws: it is a file entry and a directory is at its path, so
      FileOutputStream fails (line 300) and the catch outside the loop ends extraction. */
  predicate Stops(fs: FileMap, target: string, e: ZipEntry)
  {
    !IsDirectoryEntry(e) && !Writable(fs, EntryPath(target, e.name))
  }

  /** The file system after entry `e`, when it does not throw: a directory entry is made
      unless something already exists at its path (mkdirs then does nothing); a file
      entry replaces whatever regular file is at its path by the entry's bytes. */
  function Apply(fs: FileMap, target: string, e: ZipEntry): FileMap
  {
    var path := EntryPath(target, e.name);
    if IsDirectoryEntry(e) then (if path in fs then fs else fs[path := Directory])
    else fs[path := File(Bytes(e.data))]
  }

  /** The file system after unzipJRE's entry loop (lines 289-310) has run over `entries`
      from `fs`, stopping at the first entry that throws. Paths are those java.io.File
      makes of the names, so `jre/` and `jre` name one path. */
  function Extract(fs: FileMap, target: string, entries: seq<ZipEntry>): FileMap
    decreases |entries|
  {
    if entries == [] || Stops(fs, target, entries[0]) then fs
    else Extract(Apply(fs, target, entries[0]), target, entries[1..])
  }

  /** The entry loop reaches the end of the stream without an exception. */
  predicate Completes(fs: FileMap, target: string, entries: seq<ZipEntry>)
    decreases |entries|
  {
    if entries == [] then true
    else if Stops(fs, target, entries[0]) then false
    else Completes(Apply(fs, target, entries[0]), target, entries[1..])
  }

  /** A directory entry names the same path as the name without its slash, and a single
      name lands directly below the target's normal form. Different entry names can
      therefore reach the same file. */
  lemma EntryPathOfName(target: string, name: string)
    ensures EntryPath(target, name + "/") == EntryPath(target, name)
    ensures PlainName(name) ==> EntryPath(target, name) == Normalize(target) + [Separator] + name
  {
    assert target + [Separator] + (name + "/") == (target + [Separator] + name) + ['/'];
    NormalizeTrailing(target + [Separator] + name, '/');
    if PlainName(name) {
      NormalizeJoin(target, name);
    }
  }

  /** Extraction only adds or overwrites: nothing that existed disappears. */
  lemma {:induction false} ExtractKeepsPaths(fs: FileMap, target: string, entries: seq<ZipEntry>, q: string)
    requires q in fs
    ensures q in Extract(fs, target, entries)
    decreases |entries|
  {
    if entries != [] && !Stops(fs, target, entries[0]) {
      ExtractKeepsPaths(Apply(fs, target, entries[0]), target, entries[1..], q);
    }
  }

  /** A path that no entry names is left exactly as it was. */
  lemma {:induction false} ExtractFrame(fs: FileMap, target: string, entries: seq<ZipEntry>, q: string)
    requires forall i :: 0 <= i < |entries| ==> EntryPath(target, entries[i].name) != q
    ensures q in Extract(fs, target, entries) <==> q in fs
    ensures q in fs ==> Extract(fs, target, entries)[q] == fs[q]
    decreases |entries|
  {
    if entries != [] && !Stops(fs, target, entries[0]) {
      assert EntryPath(target, entries[0].name) != q;
      assert forall i :: 0 <= i < |entries[1..]| ==> entries[1..][i] == entries[i + 1];
      ExtractFrame(Apply(fs, target, entries[0]), target, entries[1..], q);
    }
  }

  /** When the loop completes, a file entry whose path no later entry reaches again holds
      exactly the entry's bytes. */
  lemma {:induction false} ExtractWritesFile(fs: FileMap, target: string, entries: seq<ZipEntry>, i: nat)
    requires Completes(fs, target, entries)
    requires i < |entries| && !IsDirectoryEntry(entries[i])
    requires forall j :: i < j < |entries| ==> EntryPath(target, entries[j].name) != EntryPath(target, entries[i].name)
    ensures EntryPath(target, entries[i].name) in Extract(fs, target, entries)
    ensures Extract(fs, target, entries)[EntryPath(target, entries[i].name)] == File(Bytes(entries[i].data))
    decreases |entries|
  {
    var next := Apply(fs, target, entries[0]);
    assert forall j :: 0 <= j < |entries[1..]| ==> entries[1..][j] == entries[j + 1];
    if i == 0 {
      ExtractFrame(next, target, entries[1..], EntryPath(target, entries[0].name));
    } else {
      ExtractWritesFile(next, target, entries[1..], i - 1);
    }
  }

  /** Once the loop gets as far as a directory entry (no earlier entry threw), the
      directory mkdirs makes for it exists at the end. */
  lemma {:induction false} ExtractMakesDirectory(fs: FileMap, target: string, entries: seq<ZipEntry>, i: nat)
    requires i < |entries| && IsDirectoryEntry(entries[i])
    requires Completes(fs, target, entries[..i])
    ensures EntryPath(target, entries[i].name) in Extract(fs, target, entries)
    decreases |entries|
  {
    var next := Apply(fs, target, entries[0]);
    if i == 0 {
      ExtractKeepsPaths(next, target, entries[1..], EntryPath(target, entries[0].name));
    } else {
      var before := entries[..i];
      assert before[0] == entries[0] && before[1..] == entries[1..][..i - 1];
      ExtractMakesDirectory(next, target, entries[1..], i - 1);
    }
  }

  /** Entries are applied in stream order: extracting a stream is extracting its first part,
      then, only if that part raised no exception, its second part. */
  lemma {:induction false} ExtractAppend(fs: FileMap, target: string, first: seq<ZipEntry>, second: seq<ZipEntry>)
    ensures Extract(fs, target, first + second) ==
      if Completes(fs, target, first) then Extract(Extract(fs, target, first), target, second)
      else Extract(fs, target, first)
    ensures Completes(fs, target, first + second) <==>
      Completes(fs, target, first) && Completes(Extract(fs, target, first), target, second)
    decreases |first|
  {
    if first != [] {
      assert (first + second)[0] == first[0];
      assert (first + second)[1..] == first[1..] + second;
      if !Stops(fs, target, first[0]) {
        ExtractAppend(Apply(fs, target, first[0]), target, first[1..], second);
      }
    } else {
      assert first + second == second;
    }
  }

  /** ZipInputStream.read(buffer): copies between one byte and buffer.Length bytes of the
      current entry, from position `pos` on, to the front of `buffer` and returns how many;
      returns -1 at the end of the entry. How many bytes one call delivers is left open. */
  method ReadChunk(data: seq<byte>, pos: nat, buffer: array<byte>) returns (len: int)
    requires pos <= |data| && 0 < buffer.Length
    modifies buffer
    ensures pos == |data| ==> len == -1
    ensures pos < |data| ==> 0 < len <= buffer.Length && pos + len <= |data|
    ensures pos < |data| ==> buffer[..len] == data[pos..pos + len]
  {
    if pos == |data| {
      return -1;
    }
    var most := if |data| - pos < buffer.Length then |data| - pos else buffer.Length;
    len :| 0 < len <= most;
    var k := 0;
    while k < len
      invariant 0 <= k <= len
      invariant forall j :: 0 <= j < k ==> buffer[j] == data[pos + j]
    {
      buffer[k] := data[pos + k];
      k := k + 1;
    }
    assert buffer[..len] == data[pos..pos + len];
  }

  /** The copy loop of lines 300-307 for one file entry: read into a 1024-byte buffer and
      write the `len` bytes read, until read reports the end of the entry. Whatever the
      chunk sizes, the bytes written are the entry's bytes, in order. */
  method CopyEntry(data: seq<byte>) returns (written: seq<byte>)
    ensures written == data
  {
    var buffer := new byte[BufferSize];
    var pos := 0;
    written := [];
    var len := ReadChunk(data, pos, buffer);
    while len > 0
      invariant 0 <= pos <= |data|
      invariant written == data[..pos]
      invariant pos == |data| ==> len == -1
      invariant buffer.Length == BufferSize
      invariant pos < |data| ==> 0 < len <= buffer.Length && pos + len <= |data| && buffer[..len] == data[pos..pos + len]
      decreases |data| - pos
    {
      written := written + buffer[..len];
      pos := pos + len;
      len := ReadChunk(data, pos, buffer);
    }
    assert pos == |data|;
  }
}
