/** The file-saving processor of the save command: each chunk goes to its own
    file named <base>-<index>.<ext> in the output directory. */
module IndexedWriter {
  import opened Types

  /** The input name "-" (standard input) is saved as if it were "chunk.txt". */
  function InputName(input: string): (name: string)
    ensures input == "-" ==> name == "chunk.txt"
    ensures input != "-" ==> name == input
  {
    if input == "-" then "chunk.txt" else input
  }

  predicate IsSuffix(suffix: string, s: string)
  {
    |suffix| <= |s| && s[|s| - |suffix|..] == suffix
  }

  /** The path without its trailing slashes. */
  function StripTrailingSlashes(p: string): (r: string)
    ensures |r| <= |p| && r == p[..|r|]
    ensures r == [] || r[|r| - 1] != '/'
    ensures forall k :: |r| <= k < |p| ==> p[k] == '/'
  {
    if p == [] || p[|p| - 1] != '/' then p else StripTrailingSlashes(p[..|p| - 1])
  }

  /** The final path element: the longest suffix of p that holds no slash. */
  function AfterLastSlash(p: string): (r: string)
    ensures |r| <= |p| && r == p[|p| - |r|..]
    ensures forall k :: 0 <= k < |r| ==> r[k] != '/'
    ensures |r| < |p| ==> p[|p| - |r| - 1] == '/'
  {
    if p == [] || p[|p| - 1] == '/' then [] else AfterLastSlash(p[..|p| - 1]) + [p[|p| - 1]]
  }

  /** filepath.Ext (with '/' as the only separator): the suffix of the final
      path element that starts at its last '.', or "" if it has none. */
  function Ext(path: string): (ext: string)
    ensures |ext| <= |path|
    ensures ext == [] || ext[0] == '.'
  {
    if path == [] then []
    else
      var c := path[|path| - 1];
      if c == '/' then []
      else if c == '.' then [c]
      else
        var e := Ext(path[..|path| - 1]);
        if e == [] then [] else e + [c]
  }

  /** Ext is the suffix of the final path element from its last '.', and
      is empty exactly when that element has no '.'. */
  lemma {:induction false} ExtOfFinalElement(path: string)
    ensures IsSuffix(Ext(path), AfterLastSlash(path))
    ensures forall k :: 1 <= k < |Ext(path)| ==> Ext(path)[k] != '.'
    ensures Ext(path) == [] <==> '.' !in AfterLastSlash(path)
  {
    if path != [] {
      var c := path[|path| - 1];
      var q := path[..|path| - 1];
      if c == '.' {
        assert AfterLastSlash(path) == AfterLastSlash(q) + [c];
      } else if c != '/' {
        ExtOfFinalElement(q);
        SnocStep(Ext(q), AfterLastSlash(q), c);
        assert AfterLastSlash(path) == AfterLastSlash(q) + [c];
      }
    }
  }

  /** One more character that is neither '/' nor '.' extends both the final
      element and a non-empty extension. */
  lemma SnocStep(e: string, f: string, c: char)
    requires IsSuffix(e, f) && c != '.'
    requires forall k :: 1 <= k < |e| ==> e[k] != '.'
    requires e == [] <==> '.' !in f
    ensures var e' := if e == [] then [] else e + [c];
      && IsSuffix(e', f + [c])
      && (forall k :: 1 <= k < |e'| ==> e'[k] != '.')
      && (e' == [] <==> '.' !in f + [c])
  {
    if e != [] {
      assert (f + [c])[|f| + 1 - |e| - 1..] == f[|f| - |e|..] + [c];
    }
  }

  /** filepath.Base (with '/' as the only separator): the final path element,
      "." for the empty path and "/" for a path of slashes only. */
  function Base(p: string): (r: string)
    ensures r != []
    ensures p == [] ==> r == "."
    ensures p != [] && p[|p| - 1] != '/' ==> r == AfterLastSlash(p)
    ensures p != [] && StripTrailingSlashes(p) == [] ==> r == "/"
    ensures StripTrailingSlashes(p) != [] ==> r == AfterLastSlash(StripTrailingSlashes(p))
  {
    if p == [] then "."
    else
      var q := StripTrailingSlashes(p);
      if q == [] then "/" else AfterLastSlash(q)
  }

  /** strings.TrimSuffix. */
  function TrimSuffix(s: string, suffix: string): (r: string)
    ensures IsSuffix(suffix, s) ==> r + suffix == s
    ensures !IsSuffix(suffix, s) ==> r == s
  {
    if IsSuffix(suffix, s) then s[..|s| - |suffix|] else s
  }

  /** The extension of a path is a suffix of its final element, and the base
      name the writer keeps is that element with the extension cut off, so
      that baseName + ext is the final path element. */
  lemma BaseNameAndExt(path: string)
    ensures IsSuffix(Ext(path), Base(path))
    ensures TrimSuffix(Base(path), Ext(path)) + Ext(path) == Base(path)
  {
    var ext := Ext(path);
    assert IsSuffix(ext, Base(path)) by {
      ExtOfFinalElement(path);
      if ext != [] {
        var f := AfterLastSlash(path);
        assert path[|path| - 1] == f[|f| - 1];
      }
    }
  }

  /** The decimal digit for 0 <= d < 10. */
  function Digit(d: nat): (c: char)
    requires d < 10
    ensures '0' <= c <= '9' && c as int - '0' as int == d
  {
    ('0' as int + d) as char
  }

  /** fmt's %d: the decimal digits of n, without leading zeros. */
  function Decimal(n: nat): (r: string)
    ensures |r| >= 1
    ensures forall k :: 0 <= k < |r| ==> '0' <= r[k] <= '9'
    ensures r[0] == '0' ==> r == "0"
  {
    if n < 10 then [Digit(n)] else Decimal(n / 10) + [Digit(n % 10)]
  }

  /** The number a string of decimal digits stands for. */
  function DigitsValue(s: string): nat
  {
    if s == [] then 0
    else DigitsValue(s[..|s| - 1]) * 10 + (if '0' <= s[|s| - 1] <= '9' then s[|s| - 1] as int - '0' as int else 0)
  }

  /** Reading back the decimal digits of n gives n. */
  lemma {:induction false} DecimalRoundTrip(n: nat)
    ensures DigitsValue(Decimal(n)) == n
  {
    if n >= 10 {
      var r := Decimal(n);
      assert r[..|r| - 1] == Decimal(n / 10);
      DecimalRoundTrip(n / 10);
    }
  }

  /** The name of the file for one chunk: fmt.Sprintf("%s-%d.%s", baseName, index, ext). */
  function FileName(baseName: string, index: uint32, ext: string): string
  {
    baseName + "-" + Decimal(index as nat) + "." + ext
  }

  /** The index a file name carries, for a given base name and extension. */
  function IndexOf(baseName: string, ext: string, name: string): Option<nat>
  {
    var lo, hi := |baseName| + 1, |name| - |ext| - 1;
    if lo > hi || name[..lo] != baseName + "-" || name[hi..] != "." + ext then None
    else
      var digits := name[lo..hi];
      if digits != [] && forall k :: 0 <= k < |digits| ==> '0' <= digits[k] <= '9'
      then Some(DigitsValue(digits))
      else None
  }

  /** The index can be read back from the file name. */
  lemma FileNameRoundTrip(baseName: string, index: uint32, ext: string)
    ensures IndexOf(baseName, ext, FileName(baseName, index, ext)) == Some(index as nat)
  {
    var name := FileName(baseName, index, ext);
    var d := Decimal(index as nat);
    var lo, hi := |baseName| + 1, |name| - |ext| - 1;
    assert name[..lo] == baseName + "-";
    assert name[hi..] == "." + ext;
    assert name[lo..hi] == d;
    DecimalRoundTrip(index as nat);
  }

  /** Different indices give different file names. */
  lemma FileNamesDistinct(baseName: string, ext: string, i: uint32, j: uint32)
    requires i != j
    ensures FileName(baseName, i, ext) != FileName(baseName, j, ext)
  {
    FileNameRoundTrip(baseName, i, ext);
    FileNameRoundTrip(baseName, j, ext);
  }

  /** The arguments of filepath.Join(dir, name); the joined, cleaned path is
      not computed. */
  datatype JoinedPath = Join(dir: string, name: string)

  /** The file system as seen by ProcessChunk: whether creating a file, and
      writing a chunk to it, fails (Some(cause)) or succeeds (None). */
  datatype FileSystem = FileSystem(create: JoinedPath -> Option<string>, write: (JoinedPath, Chunk) -> Option<string>)

  datatype WriteError =
    | CreateFailed(cause: string)  // "failed to create file for result: %w"
    | WriteFailed(cause: string)   // "failed to write chunk to file: %w"

  /** uint32 w.index++: wraps to 0 after 2^32 - 1. */
  function Next(i: uint32): (r: uint32)
    ensures r as int == (i as int + 1) % Uint32Modulus
  {
    if i as int == Uint32Modulus - 1 then 0 else i + 1
  }

  /** The file the k-th successful write goes to: the one named with index k
      modulo 2^32. */
  function Target(dir: string, baseName: string, ext: string, k: nat): JoinedPath
  {
    Join(dir, FileName(baseName, (k % Uint32Modulus) as uint32, ext))
  }

  /** indexedChunksWriter: the output directory, base name and extension are
      fixed at construction; only the index changes. */
  class IndexedChunksWriter {
    const dir: string
    const baseName: string
    const ext: string
    var index: uint32
    /** The files written so far, in order. */
    ghost var Written: seq<JoinedPath>

    /** The index counts the files written, modulo 2^32, and the k-th file
        written is the one named with index k modulo 2^32. */
    ghost predicate Valid()
      reads this
    {
      && index as int == |Written| % Uint32Modulus
      && forall k :: 0 <= k < |Written| ==> Written[k] == Target(dir, baseName, ext, k)
    }

    /** newIndexedChunksWriter. */
    constructor (outDir: string, input: string)
      ensures Valid() && Written == []
      ensures dir == outDir && index == 0
      ensures ext == Ext(InputName(input))
      ensures baseName == TrimSuffix(Base(InputName(input)), ext)
    {
      dir := outDir;
      ext := Ext(InputName(input));
      baseName := TrimSuffix(Base(InputName(input)), Ext(InputName(input)));
      index := 0;
      Written := [];
    }

    /** getOutputPath: the file for the current index, in the output directory. */
    function OutputPath(): (p: JoinedPath)
      reads this
      ensures p.dir == dir && p.name == FileName(baseName, index, ext)
      ensures IndexOf(baseName, ext, p.name) == Some(index as nat)
    {
      FileNameRoundTrip(baseName, index, ext);
      Join(dir, FileName(baseName, index, ext))
    }

    /** ProcessChunk: create the file for the current index and write the
        chunk to it; only when both succeed does the index advance. */
    method ProcessChunk(chunk: Chunk, fs: FileSystem) returns (err: Option<WriteError>)
      requires Valid()
      modifies this
      ensures Valid()
      ensures var path := old(OutputPath());
        err == (if fs.create(path).Some? then Some(CreateFailed(fs.create(path).value))
                else if fs.write(path, chunk).Some? then Some(WriteFailed(fs.write(path, chunk).value))
                else None)
      ensures err == None ==> index == Next(old(index)) && Written == old(Written) + [old(OutputPath())]
      ensures err != None ==> index == old(index) && Written == old(Written)
    {
      var path := OutputPath();
      var created := fs.create(path);
      if created.Some? {
        return Some(CreateFailed(created.value));
      }
      var written := fs.write(path, chunk);
      if written.Some? {
        return Some(WriteFailed(written.value));
      }
      CountStep(|Written|);
      index := Next(index);
      Written := Written + [path];
      return None;
    }
  }

  lemma CountStep(n: nat)
    ensures (n % Uint32Modulus + 1) % Uint32Modulus == (n + 1) % Uint32Modulus
  {
  }

  /** Fewer than 2^32 successful writes go to pairwise distinct files. */
  lemma WrittenFilesDistinct(w: IndexedChunksWriter)
    requires w.Valid() && |w.Written| <= Uint32Modulus
    ensures forall i, j :: 0 <= i < j < |w.Written| ==> w.Written[i] != w.Written[j]
  {
    forall i, j | 0 <= i < j < |w.Written|
      ensures w.Written[i] != w.Written[j]
    {
      assert i % Uint32Modulus == i && j % Uint32Modulus == j;
      FileNamesDistinct(w.baseName, w.ext, i as uint32, j as uint32);
    }
  }

  /** After 2^32 successful writes the index has wrapped around, and the next
      file written is the first one again. */
  lemma WrittenWrapsAround(w: IndexedChunksWriter)
    requires w.Valid() && |w.Written| > Uint32Modulus
    ensures w.Written[Uint32Modulus] == w.Written[0]
  {
  }

  /** The extension of a name whose last element ends in "." + t, with no dot
      or slash in t, is "." + t. */
  lemma {:induction false} ExtAfterLastDot(s: string, t: string)
    requires forall k :: 0 <= k < |t| ==> t[k] != '.' && t[k] != '/'
    ensures Ext(s + "." + t) == "." + t
  {
    var p := s + "." + t;
    if t == [] {
      assert p[|p| - 1] == '.';
    } else {
      var t' := t[..|t| - 1];
      var c := t[|t| - 1];
      assert p[|p| - 1] == c && c != '/' && c != '.';
      assert p[..|p| - 1] == s + "." + t';
      ExtAfterLastDot(s, t');
      assert Ext(p) == Ext(s + "." + t') + [c];
      assert "." + t == "." + t' + [c];
    }
  }

  /** A plain file name b.t, with no slash in b and no dot or slash in t, has
      base name b once its extension "." + t is trimmed. */
  lemma PlainNameBase(b: string, t: string)
    requires forall k :: 0 <= k < |b| ==> b[k] != '/'
    requires forall k :: 0 <= k < |t| ==> t[k] != '.' && t[k] != '/'
    ensures TrimSuffix(Base(b + "." + t), "." + t) == b
  {
    PlainNameHasNoSlash(b, t);
    BaseOfPlainName(b + "." + t);
    TrimExtension(b, t);
  }

  lemma PlainNameHasNoSlash(b: string, t: string)
    requires forall k :: 0 <= k < |b| ==> b[k] != '/'
    requires forall k :: 0 <= k < |t| ==> t[k] != '/'
    ensures forall k :: 0 <= k < |b + "." + t| ==> (b + "." + t)[k] != '/'
  {
    var name := b + "." + t;
    forall k | 0 <= k < |name|
      ensures name[k] != '/'
    {
      if k > |b| {
        assert name[k] == t[k - |b| - 1];
      }
    }
  }

  lemma TrimExtension(b: string, t: string)
    ensures TrimSuffix(b + "." + t, "." + t) == b
  {
    var name := b + "." + t;
    assert name[|b|..] == "." + t;
    assert name[..|b|] == b;
  }

  /** Input "data.txt" has extension ".txt". */
  lemma DataTxtExt(input: string)
    requires input == "data.txt"
    ensures Ext(InputName(input)) == ".txt"
  {
    assert InputName(input) == "data" + "." + "txt";
    ExtAfterLastDot("data", "txt");
  }

  /** Input "-" is saved under the name "chunk.txt": extension ".txt". */
  lemma StdinExt(input: string)
    requires input == "-"
    ensures Ext(InputName(input)) == ".txt"
  {
    assert InputName(input) == "chunk" + "." + "txt";
    ExtAfterLastDot("chunk", "txt");
  }

  /** The first files for "data.txt" and for "-" are "data-0..txt" and
      "chunk-0..txt": the format adds a dot of its own before the extension. */
  lemma FirstFileNames()
    ensures FileName("data", 0, ".txt") == "data-0..txt"
    ensures FileName("chunk", 0, ".txt") == "chunk-0..txt"
  {
    assert Decimal(0) == "0";
  }

  /** A name without slashes is its own base. */
  lemma BaseOfPlainName(p: string)
    requires p != [] && forall k :: 0 <= k < |p| ==> p[k] != '/'
    ensures Base(p) == p
  {
    var b := AfterLastSlash(p);
    assert |b| == |p|;
    assert b == p[|p| - |b|..];
  }
}
