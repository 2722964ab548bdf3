/**
 * Finding the examples: the list comprehension at lines 26-28 that keeps the
 * entries of the examples directory whose names end in ".mjs", in the order
 * os.listdir gives them, and joins each to the examples directory.
 */
module Discovery {
  import opened Text
  import opened Paths

  /** The entries of the listing that name example sources, in listing order. */
  function MjsNames(listing: seq<string>): (names: seq<string>)
    ensures |names| <= |listing|
    ensures forall k :: 0 <= k < |names| ==> EndsWith(names[k], SourceExtension)
  {
    if listing == [] then []
    else if EndsWith(listing[0], SourceExtension) then [listing[0]] + MjsNames(listing[1..])
    else MjsNames(listing[1..])
  }

  /** mjs_files: each kept entry joined under the examples directory. */
  function MjsFiles(examplesDir: string, listing: seq<string>): (files: seq<string>)
    ensures |files| == |MjsNames(listing)|
    ensures forall k :: 0 <= k < |files| ==>
      EndsWith(files[k], MjsNames(listing)[k]) && EndsWith(files[k], SourceExtension)
    ensures forall k :: 0 <= k < |files| && IsEntryName(MjsNames(listing)[k]) ==>
      files[k] == DirectoryPart(examplesDir) + MjsNames(listing)[k]
  {
    var names := MjsNames(listing);
    var files := seq(|names|, k requires 0 <= k < |names| => Join(examplesDir, names[k]));
    assert forall k :: 0 <= k < |files| ==> EndsWith(files[k], SourceExtension) by {
      forall k | 0 <= k < |files|
        ensures EndsWith(files[k], SourceExtension)
      {
        EndsWithTransitive(files[k], names[k], SourceExtension);
      }
    }
    assert forall k :: 0 <= k < |files| && IsEntryName(names[k]) ==>
      files[k] == DirectoryPart(examplesDir) + names[k] by {
      forall k | 0 <= k < |files| && IsEntryName(names[k])
        ensures files[k] == DirectoryPart(examplesDir) + names[k]
      {
        JoinRelative(examplesDir, names[k]);
      }
    }
    files
  }

  /** a is obtained from b by deleting elements, keeping the order of the rest. */
  predicate IsSubsequence<T(==)>(a: seq<T>, b: seq<T>)
    decreases |b|
  {
    if a == [] then true
    else if b == [] then false
    else (a[0] == b[0] && IsSubsequence(a[1..], b[1..])) || IsSubsequence(a, b[1..])
  }

  /** No entry occurs twice (os.listdir lists each name once). */
  predicate Distinct<T(==)>(s: seq<T>) {
    forall i, j :: 0 <= i < j < |s| ==> s[i] != s[j]
  }

  /** An entry is kept if and only if it is listed and ends in ".mjs". */
  lemma {:induction false} MjsNamesMembership(listing: seq<string>, x: string)
    ensures x in MjsNames(listing) <==> x in listing && EndsWith(x, SourceExtension)
  {
    if listing != [] {
      MjsNamesMembership(listing[1..], x);
      assert listing == [listing[0]] + listing[1..];
    }
  }

  /** Each kept entry is kept as many times as it is listed; the others not at all. */
  lemma {:induction false} MjsNamesMultiplicity(listing: seq<string>, x: string)
    ensures multiset(MjsNames(listing))[x]
         == if EndsWith(x, SourceExtension) then multiset(listing)[x] else 0
  {
    if listing != [] {
      MjsNamesMultiplicity(listing[1..], x);
      assert listing == [listing[0]] + listing[1..];
    }
  }

  /** The filter keeps the relative listing order: it is a subsequence of the listing. */
  lemma {:induction false} MjsNamesIsSubsequence(listing: seq<string>)
    ensures IsSubsequence(MjsNames(listing), listing)
  {
    if listing != [] {
      MjsNamesIsSubsequence(listing[1..]);
      var rest := MjsNames(listing[1..]);
      if EndsWith(listing[0], SourceExtension) {
        assert MjsNames(listing)[1..] == rest;
      }
    }
  }

  /** A listing without repeats gives a filtered list without repeats. */
  lemma {:induction false} MjsNamesDistinct(listing: seq<string>)
    requires Distinct(listing)
    ensures Distinct(MjsNames(listing))
  {
    if listing != [] {
      var tail := listing[1..];
      assert Distinct(tail) by {
        forall i, j | 0 <= i < j < |tail| ensures tail[i] != tail[j] {
          assert tail[i] == listing[i + 1] && tail[j] == listing[j + 1];
        }
      }
      MjsNamesDistinct(tail);
      if EndsWith(listing[0], SourceExtension) {
        MjsNamesMembership(tail, listing[0]);
        assert listing[0] !in tail by {
          forall k | 0 <= k < |tail| ensures tail[k] != listing[0] {
            assert tail[k] == listing[k + 1];
          }
        }
        var names := MjsNames(listing);
        forall i, j | 0 <= i < j < |names| ensures names[i] != names[j] {
          if i == 0 {
            assert names[j] == MjsNames(tail)[j - 1];
            assert names[j] in MjsNames(tail);
          } else {
            assert names[i] == MjsNames(tail)[i - 1] && names[j] == MjsNames(tail)[j - 1];
          }
        }
      }
    }
  }
}
