/** Values shared by the launcher model: optional strings (Java references that may be
    null), bytes, archive entries, and the installation directory seen as a flat map
    from path to node. */
module Files {

  /** A Java reference that may be null. */
  datatype Option<+T> = None | Some(value: T)

  newtype byte = x: int | 0 <= x < 256

  /** One entry of a zip archive, as ZipInputStream yields it: its name and its bytes. */
  datatype ZipEntry = ZipEntry(name: string, data: seq<byte>)

  /** What a regular file holds. A properties file is kept as its key/value pairs and a
      zip archive as its entries, in stream order; every other file as raw bytes. */
  datatype Content =
    | Bytes(data: seq<byte>)
    | Properties(props: map<string, string>)
    | Archive(entries: seq<ZipEntry>)

  datatype Node = Directory | File(content: Content)

  /** The file system: which paths exist and what they hold. */
  type FileMap = map<string, Node>

  /** What each URL serves. A URL outside the map cannot be opened. */
  type Remote = map<string, Content>

  /** File.separator on Windows, the only platform the launcher ships for. */
  const Separator: char := '\\'

  /** A character java.io.File treats as a name separator on Windows. */
  predicate IsSeparator(c: char)
  {
    c == '/' || c == Separator
  }

  predicate EndsWithSeparator(q: string)
  {
    |q| > 0 && q[|q| - 1] == Separator
  }

  /** `p` with every '/' turned into the separator and every run of separators merged
      into one; a separator at the end is kept. */
  function Collapsed(p: string): string
    decreases |p|
  {
    if p == [] then []
    else
      var q := Collapsed(p[..|p| - 1]);
      var c := p[|p| - 1];
      if !IsSeparator(c) then q + [c]
      else if EndsWithSeparator(q) then q
      else q + [Separator]
  }

  /** The path a java.io.File built from the string `p` stands for on Windows: '/' and
      '\\' both separate names, repeated separators count once and a trailing separator
      is dropped. The paths the launcher builds are in this form; a starting FileMap is
      taken to hold only such paths. */
  function Normalize(p: string): string
  {
    var q := Collapsed(p);
    if EndsWithSeparator(q) then q[..|q| - 1] else q
  }

  /** A single non-empty name, with no separator in it. */
  predicate PlainName(n: string)
  {
    |n| > 0 && forall i :: 0 <= i < |n| ==> !IsSeparator(n[i])
  }

  /** No '/' and no two separators in a row: what Collapsed leaves. */
  predicate Clean(q: string)
  {
    && (forall i :: 0 <= i < |q| ==> q[i] != '/')
    && (forall i :: 0 < i < |q| ==> q[i] == Separator ==> q[i - 1] != Separator)
  }

  /** A path as Normalize leaves it. */
  predicate IsNormal(q: string)
  {
    Clean(q) && !EndsWithSeparator(q)
  }

  /** Appending characters that are not separators appends them to the collapsed form. */
  lemma {:induction false} CollapsedAppend(p: string, n: string)
    requires forall i :: 0 <= i < |n| ==> !IsSeparator(n[i])
    ensures Collapsed(p + n) == Collapsed(p) + n
    decreases |n|
  {
    if n == [] {
      assert p + n == p;
    } else {
      var m := n[..|n| - 1];
      assert (p + n)[..|p + n| - 1] == p + m;
      CollapsedAppend(p, m);
      assert n == m + [n[|n| - 1]];
    }
  }

  /** A separator at the end of `p` collapses to exactly one after the normal form. */
  lemma CollapsedSeparator(p: string)
    ensures Collapsed(p + [Separator]) == Normalize(p) + [Separator]
  {
    assert (p + [Separator])[..|p|] == p;
  }

  /** Joining a single name onto a path: `new File(p + separator + n)` is the normal form
      of `p` followed by one separator and `n`. */
  lemma NormalizeJoin(p: string, n: string)
    requires PlainName(n)
    ensures Normalize(p + [Separator] + n) == Normalize(p) + [Separator] + n
  {
    CollapsedSeparator(p);
    CollapsedAppend(p + [Separator], n);
  }

  /** What is appended to a path is collapsed against the collapsed path alone. */
  lemma {:induction false} CollapsedCongruent(a: string, b: string, y: string)
    requires Collapsed(a) == Collapsed(b)
    ensures Collapsed(a + y) == Collapsed(b + y)
    decreases |y|
  {
    if y == [] {
      assert a + y == a && b + y == b;
    } else {
      var m := y[..|y| - 1];
      assert (a + y)[..|a + y| - 1] == a + m;
      assert (b + y)[..|b + y| - 1] == b + m;
      CollapsedCongruent(a, b, m);
    }
  }

  /** A trailing separator does not change the path a File names. */
  lemma NormalizeTrailing(p: string, c: char)
    requires IsSeparator(c)
    ensures Normalize(p + [c]) == Normalize(p)
  {
    assert (p + [c])[..|p|] == p;
    CollapsedSeparator(p);
  }

  /** Collapsing leaves no '/' and no two separators in a row. */
  lemma {:induction false} CollapsedClean(p: string)
    ensures Clean(Collapsed(p))
    decreases |p|
  {
    if p != [] {
      var q := Collapsed(p[..|p| - 1]);
      var c := p[|p| - 1];
      CollapsedClean(p[..|p| - 1]);
      if !IsSeparator(c) {
        CleanExtend(q, c);
      } else if !EndsWithSeparator(q) {
        CleanExtend(q, Separator);
      }
    }
  }

  lemma CleanExtend(q: string, c: char)
    requires Clean(q) && c != '/'
    requires c == Separator ==> !EndsWithSeparator(q)
    ensures Clean(q + [c])
  {
    var r := q + [c];
    forall i | 0 < i < |r| && r[i] == Separator
      ensures r[i - 1] != Separator
    {
      if i == |q| {
        assert r[i - 1] == q[|q| - 1];
      } else {
        assert r[i] == q[i] && r[i - 1] == q[i - 1];
      }
    }
    forall i | 0 <= i < |r|
      ensures r[i] != '/'
    {
      if i < |q| {
        assert r[i] == q[i];
      }
    }
  }

  /** A clean path collapses to itself. */
  lemma {:induction false} CollapsedOfClean(q: string)
    requires Clean(q)
    ensures Collapsed(q) == q
    decreases |q|
  {
    if q != [] {
      var m := q[..|q| - 1];
      assert Clean(m) by {
        forall i | 0 < i < |m| && m[i] == Separator
          ensures m[i - 1] != Separator
        {
          assert q[i] == m[i] && q[i - 1] == m[i - 1];
        }
      }
      CollapsedOfClean(m);
      if |q| > 1 && q[|q| - 1] == Separator {
        assert q[|q| - 2] != Separator;
      }
      assert q == m + [q[|q| - 1]];
    }
  }

  lemma NormalizeIsNormal(p: string)
    ensures IsNormal(Normalize(p))
  {
    var q := Collapsed(p);
    CollapsedClean(p);
    if EndsWithSeparator(q) {
      var m := q[..|q| - 1];
      forall i | 0 < i < |m| && m[i] == Separator
        ensures m[i - 1] != Separator
      {
        assert q[i] == m[i] && q[i - 1] == m[i - 1];
      }
      if |m| > 0 {
        assert q[|q| - 1] == Separator && m[|m| - 1] == q[|q| - 2];
      }
    }
  }

  /** Making a File of a File's path changes nothing. */
  lemma NormalizeIdempotent(p: string)
    ensures Normalize(Normalize(p)) == Normalize(p)
  {
    NormalizeIsNormal(p);
    CollapsedOfClean(Normalize(p));
  }

  /** How Java's string concatenation renders a String that may be null. */
  function AsText(s: Option<string>): string
  {
    match s
    case None => "null"
    case Some(v) => v
  }

  /** FileOutputStream can open `path`: nothing, or a regular file, is there. On a
      directory it throws FileNotFoundException. */
  predicate Writable(fs: FileMap, path: string)
  {
    path !in fs || fs[path].File?
  }

  /** The file system after copying what `url` serves to `path`; unchanged when the URL
      cannot be opened or a directory is at `path` (the IOException is caught, and nothing
      is written). */
  function Fetched(fs: FileMap, url: string, path: string, remote: Remote): FileMap
  {
    if url in remote && Writable(fs, path) then fs[path := File(remote[url])] else fs
  }

  /** File.renameTo: succeeds when `src` exists and either `dst` does not exist or the
      platform lets a rename replace an existing target (`overwrites`). */
  function RenameTo(fs: FileMap, src: string, dst: string, overwrites: bool): FileMap
  {
    if src in fs && src != dst && (dst !in fs || overwrites) then (fs - {src})[dst := fs[src]]
    else fs
  }

  /** File.delete. */
  function Deleted(fs: FileMap, path: string): FileMap
  {
    fs - {path}
  }
}
