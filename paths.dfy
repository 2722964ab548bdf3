/**
 * POSIX path handling as the script uses it: os.path.join of two parts,
 * os.path.basename, the slice mjs_file[:-4] and the derivation of the output
 * file path of one example.
 */
module Paths {
  import opened Text

  /** A name os.listdir can return: non-empty, without a path separator. */
  predicate IsEntryName(f: string) {
    f != [] && '/' !in f
  }

  /** p.startswith('/'). */
  predicate IsAbsolute(p: string) {
    |p| > 0 && p[0] == '/'
  }

  /** p.endswith('/'). */
  predicate EndsWithSlash(p: string) {
    |p| > 0 && p[|p| - 1] == '/'
  }

  /** What os.path.join puts before a relative part: a, then '/' unless a is empty or ends in '/'. */
  function DirectoryPart(a: string): (r: string)
    ensures r == [] || EndsWithSlash(r)
  {
    if a == [] || EndsWithSlash(a) then a else a + "/"
  }

  /**
   * os.path.join(a, b) on POSIX: an absolute b replaces a; otherwise b is
   * appended to a, with a '/' in between unless a is empty or already ends
   * in '/'.
   */
  function Join(a: string, b: string): (r: string)
    ensures EndsWith(r, b)
  {
    var r := if IsAbsolute(b) then b else DirectoryPart(a) + b;
    EndsWithConcat(DirectoryPart(a), b);
    assert r[|r| - |b|..] == b;
    r
  }

  /** Joining a name that does not start with '/' appends it to the directory part. */
  lemma JoinRelative(dir: string, name: string)
    requires '/' !in name
    ensures Join(dir, name) == DirectoryPart(dir) + name
  {
    if name != [] {
      assert name[0] in name;
    }
  }

  /**
   * The index just after the last '/' of p (Python's p.rfind('/') + 1), or 0
   * when p holds no '/'.
   */
  function BasenameStart(p: string): (k: nat)
    ensures k <= |p|
    ensures k == 0 || p[k - 1] == '/'
    ensures forall i :: k <= i < |p| ==> p[i] != '/'
  {
    if p == [] then 0
    else if p[|p| - 1] == '/' then |p|
    else BasenameStart(p[..|p| - 1])
  }

  /**
   * os.path.basename(p): everything after the last '/', i.e. the longest
   * suffix of p that holds no '/'.
   */
  function Basename(p: string): (r: string)
    ensures '/' !in r
    ensures |r| <= |p| && r == p[|p| - |r|..]
    ensures r == p || p[|p| - |r| - 1] == '/'
  {
    var k := BasenameStart(p);
    assert forall i :: 0 <= i < |p[k..]| ==> p[k..][i] == p[k + i];
    p[k..]
  }

  /** After a directory part and a '/'-free name, the last '/' is the directory's own. */
  lemma {:induction false} BasenameStartAfterDirectory(d: string, name: string)
    requires d == [] || EndsWithSlash(d)
    requires '/' !in name
    ensures BasenameStart(d + name) == |d|
  {
    if name == [] {
      assert d + name == d;
    } else {
      var last := |name| - 1;
      var p := d + name;
      assert p[|p| - 1] == name[last];
      assert name[last] in name;
      assert p[..|p| - 1] == d + name[..last];
      assert '/' !in name[..last] by {
        forall i | 0 <= i < last ensures name[..last][i] != '/' {
          assert name[..last][i] == name[i];
          assert name[i] in name;
        }
      }
      BasenameStartAfterDirectory(d, name[..last]);
    }
  }

  /** The basename of a path ending in a '/'-free name is that name. */
  lemma BasenameAfterDirectory(d: string, name: string)
    requires d == [] || EndsWithSlash(d)
    requires '/' !in name
    ensures Basename(d + name) == name
  {
    BasenameStartAfterDirectory(d, name);
    assert (d + name)[|d|..] == name;
  }

  /** Python's s[:-k] for k > 0: drops the last k characters, or all of a shorter s. */
  function DropLast(s: string, k: nat): (r: string)
    requires k > 0
    ensures |s| >= k ==> |r| == |s| - k
    ensures |s| < k ==> r == []
    ensures r == s[..|r|]
  {
    if |s| >= k then s[..|s| - k] else []
  }

  const SourceExtension := ".mjs"
  const OutputExtension := ".html"

  /** The name of an example file without its ".mjs" extension. */
  function Stem(name: string): (stem: string)
    requires EndsWith(name, SourceExtension)
    ensures name == stem + SourceExtension
  {
    var stem := name[..|name| - |SourceExtension|];
    assert name == name[..|stem|] + name[|stem|..];
    stem
  }

  /**
   * out_file_path at lines 56-58: drop the last four characters of the input
   * path, append ".html", take the basename and join it under outDir.
   */
  function OutputPath(outDir: string, mjsFile: string): (r: string)
    ensures var dir := DirectoryPart(outDir);
      && |dir| <= |r| && r[..|dir|] == dir
      && '/' !in r[|dir|..]
      && EndsWith(r, OutputExtension)
  {
    var name := Basename(DropLast(mjsFile, 4) + OutputExtension);
    BasenameKeepsSuffix(DropLast(mjsFile, 4), OutputExtension);
    JoinRelative(outDir, name);
    EndsWithExtend(DirectoryPart(outDir), name, OutputExtension);
    var r := DirectoryPart(outDir) + name;
    assert r[|DirectoryPart(outDir)|..] == name;
    r
  }

  /** A final component without '/' survives in the basename. */
  lemma BasenameKeepsSuffix(p: string, t: string)
    requires '/' !in t
    ensures EndsWith(Basename(p + t), t)
  {
    var s := p + t;
    var r := Basename(s);
    assert r[|r| - |t|..] == s[|s| - |t|..];
  }

  /** A name's stem holds no '/' when the name holds none. */
  lemma StemHasNoSlash(name: string)
    requires IsEntryName(name) && EndsWith(name, SourceExtension)
    ensures '/' !in Stem(name)
  {
    var stem := Stem(name);
    forall i | 0 <= i < |stem| ensures stem[i] != '/' {
      assert stem[i] == name[i];
      assert name[i] in name;
    }
  }

  /** Dropping ".mjs" from a joined entry and appending ".html" swaps the extension. */
  lemma SwapExtension(dir: string, name: string)
    requires IsEntryName(name) && EndsWith(name, SourceExtension)
    ensures DropLast(Join(dir, name), 4) == DirectoryPart(dir) + Stem(name)
  {
    JoinRelative(dir, name);
    var prefix, stem := DirectoryPart(dir), Stem(name);
    assert Join(dir, name) == (prefix + stem) + SourceExtension;
    EndsWithConcat(prefix + stem, SourceExtension);
  }

  /** The output file name of an entry is its stem with ".html". */
  lemma OutputNameOfEntry(dir: string, name: string)
    requires IsEntryName(name) && EndsWith(name, SourceExtension)
    ensures Basename(DropLast(Join(dir, name), 4) + OutputExtension) == Stem(name) + OutputExtension
    ensures '/' !in Stem(name) + OutputExtension
  {
    var file := Stem(name) + OutputExtension;
    StemHasNoSlash(name);
    assert '/' !in file by {
      assert '/' !in OutputExtension;
    }
    SwapExtension(dir, name);
    assert DropLast(Join(dir, name), 4) + OutputExtension == DirectoryPart(dir) + file;
    BasenameAfterDirectory(DirectoryPart(dir), file);
  }

  /**
   * For an entry name ending in ".mjs" listed in dir, the output file is the
   * name with ".mjs" replaced by ".html", placed directly in outDir.
   */
  lemma OutputPathOfEntry(dir: string, outDir: string, name: string)
    requires IsEntryName(name) && EndsWith(name, SourceExtension)
    ensures OutputPath(outDir, Join(dir, name)) == DirectoryPart(outDir) + (Stem(name) + OutputExtension)
  {
    var file := Stem(name) + OutputExtension;
    OutputNameOfEntry(dir, name);
    JoinRelative(outDir, file);
  }

  /** The output file of an entry is named after its stem and ends in ".html". */
  lemma OutputFileOfEntry(dir: string, outDir: string, name: string)
    requires IsEntryName(name) && EndsWith(name, SourceExtension)
    ensures Basename(OutputPath(outDir, Join(dir, name))) == Stem(name) + OutputExtension
    ensures EndsWith(OutputPath(outDir, Join(dir, name)), OutputExtension)
  {
    var file := Stem(name) + OutputExtension;
    var d := DirectoryPart(outDir);
    assert OutputPath(outDir, Join(dir, name)) == d + file by {
      OutputPathOfEntry(dir, outDir, name);
    }
    assert Basename(d + file) == file by {
      OutputNameOfEntry(dir, name);
      BasenameAfterDirectory(d, file);
    }
    assert EndsWith(d + file, OutputExtension) by {
      EndsWithConcat(Stem(name), OutputExtension);
      EndsWithExtend(d, file, OutputExtension);
    }
  }

  lemma SuffixCancel(a: string, b: string, t: string)
    ensures a + t == b + t ==> a == b
  {
    if a + t == b + t {
      assert a == (a + t)[..|a|];
      assert b == (b + t)[..|b|];
    }
  }

  /** Distinct example names give distinct output paths. */
  lemma OutputPathInjective(dir: string, outDir: string, n1: string, n2: string)
    requires IsEntryName(n1) && EndsWith(n1, SourceExtension)
    requires IsEntryName(n2) && EndsWith(n2, SourceExtension)
    requires n1 != n2
    ensures OutputPath(outDir, Join(dir, n1)) != OutputPath(outDir, Join(dir, n2))
  {
    OutputFileOfEntry(dir, outDir, n1);
    OutputFileOfEntry(dir, outDir, n2);
    SuffixCancel(Stem(n1), Stem(n2), OutputExtension);
  }
}
