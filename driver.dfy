/**
 * The run: load the replacement pairs once; if that fails, stop before touching any
 * file. Otherwise visit every file of the target tree, select those whose
 * lower-cased name ends in `.html` or `.js`, and apply every pair to each selected
 * file in table order, each application seeing the text the previous one left.
 *
 * The directory walk is not modelled: the tree is the given sequence of entries, each
 * the joined path of a file and its bare name, in walk order.
 */
module Driver {
  import opened Wrappers
  import opened Literal
  import opened Encodings
  import opened PairLoader
  import opened Rewriter

  /** A file the directory walk yields: its joined path and its bare name. */
  datatype WalkEntry = WalkEntry(path: Path, name: string)

  datatype RunStatus = Aborted(error: LoadError) | Completed

  /** ASCII lower-casing of one character. */
  function LowerChar(c: char): char
  {
    if 'A' <= c <= 'Z' then (c as int + 32) as char else c
  }

  /** ASCII lower-casing of a name. */
  function Lower(s: string): string
  {
    seq(|s|, i requires 0 <= i < |s| => LowerChar(s[i]))
  }

  predicate EndsWith(s: string, suffix: string)
  {
    |suffix| <= |s| && s[|s| - |suffix|..] == suffix
  }

  /** The extension filter: the lower-cased name ends in `.html` or `.js`. */
  predicate IsTarget(name: string)
  {
    EndsWith(Lower(name), ".html") || EndsWith(Lower(name), ".js")
  }

  /** The filter, character by character: the name ends in `.js` or `.html` with any
      mix of upper and lower case letters. */
  lemma IsTargetChars(name: string)
    ensures IsTarget(name) <==>
      (var n := |name|;
       (n >= 3 && name[n - 3] == '.' && name[n - 2] in "jJ" && name[n - 1] in "sS") ||
       (n >= 5 && name[n - 5] == '.' && name[n - 4] in "hH" && name[n - 3] in "tT" &&
        name[n - 2] in "mM" && name[n - 1] in "lL"))
  {
    var l, n := Lower(name), |name|;
    if n >= 3 {
      assert EndsWith(l, ".js") <==> l[n - 3] == '.' && l[n - 2] == 'j' && l[n - 1] == 's' by {
        assert l[n - 3..] == [l[n - 3], l[n - 2], l[n - 1]];
      }
    }
    if n >= 5 {
      assert EndsWith(l, ".html") <==>
        l[n - 5] == '.' && l[n - 4] == 'h' && l[n - 3] == 't' && l[n - 2] == 'm' && l[n - 1] == 'l' by {
        assert l[n - 5..] == [l[n - 5], l[n - 4], l[n - 3], l[n - 2], l[n - 1]];
      }
    }
  }

  /** Names the filter accepts and rejects. */
  lemma IsTargetExamples()
    ensures IsTarget("index.HTML") && IsTarget("App.Js")
    ensures !IsTarget("style.css") && !IsTarget("data.json") && !IsTarget("js")
  {
    IsTargetChars("index.HTML");
    IsTargetChars("App.Js");
    IsTargetChars("style.css");
    IsTargetChars("data.json");
    IsTargetChars("js");
  }

  /** The text a file ends with when every pair is applied to it in order: the left fold
      of replace-all over the pairs. */
  function FoldReplace(content: string, pairs: seq<Pair>): string
    decreases |pairs|
  {
    if pairs == [] then content
    else
      var last := pairs[|pairs| - 1];
      ReplaceAll(FoldReplace(content, pairs[..|pairs| - 1]), last.find, last.replace)
  }

  /** The files after every pair has been attempted, in order, on `path`. */
  function ApplyPairs(files: map<Path, string>, access: Access, path: Path, pairs: seq<Pair>)
    : (r: map<Path, string>)
    ensures r.Keys == files.Keys
    ensures forall p :: p in files && p != path ==> r[p] == files[p]
    decreases |pairs|
  {
    if pairs == [] then files
    else
      var last := pairs[|pairs| - 1];
      Rewrite(ApplyPairs(files, access, path, pairs[..|pairs| - 1]), access, path, last.find, last.replace)
  }

  /** The files after one walk entry: a selected file gets every pair, any other none. */
  function ProcessEntry(files: map<Path, string>, access: Access, entry: WalkEntry, pairs: seq<Pair>)
    : map<Path, string>
  {
    if IsTarget(entry.name) then ApplyPairs(files, access, entry.path, pairs) else files
  }

  /** No selected entry of the walk names `p`. */
  predicate NeverSelected(entries: seq<WalkEntry>, p: Path)
  {
    forall k :: 0 <= k < |entries| && IsTarget(entries[k].name) ==> entries[k].path != p
  }

  /** The files after every walk entry, in walk order. Only paths of selected entries
      can change. */
  function RunEntries(files: map<Path, string>, access: Access, entries: seq<WalkEntry>, pairs: seq<Pair>)
    : (r: map<Path, string>)
    ensures r.Keys == files.Keys
    ensures forall p :: p in files && NeverSelected(entries, p) ==> r[p] == files[p]
    decreases |entries|
  {
    if entries == [] then files
    else
      var n := |entries| - 1;
      ProcessEntry(RunEntries(files, access, entries[..n], pairs), access, entries[n], pairs)
  }

  /** A present, readable and writable file ends with the left fold of replace-all over
      the pairs. */
  lemma {:induction false} ApplyPairsContent(files: map<Path, string>, access: Access, path: Path, pairs: seq<Pair>)
    requires path in files && path !in access.unreadable && path !in access.unwritable
    ensures ApplyPairs(files, access, path, pairs)[path] == FoldReplace(files[path], pairs)
    decreases |pairs|
  {
    if pairs != [] {
      var n := |pairs| - 1;
      ApplyPairsContent(files, access, path, pairs[..n]);
      RewriteWhenAllowed(ApplyPairs(files, access, path, pairs[..n]), access, path, pairs[n].find, pairs[n].replace);
    }
  }

  /** A file that cannot be read or written is attempted with every pair and left as it
      was: each failure is isolated and the next pair is still tried. */
  lemma {:induction false} ApplyPairsBlocked(files: map<Path, string>, access: Access, path: Path, pairs: seq<Pair>)
    requires path in access.unreadable || path in access.unwritable
    ensures ApplyPairs(files, access, path, pairs) == files
    decreases |pairs|
  {
    if pairs != [] {
      ApplyPairsBlocked(files, access, path, pairs[..|pairs| - 1]);
    }
  }

  /** Each selected file of a walk that lists every path once ends with the left fold of
      replace-all over the pairs, or as it was when it cannot be read or written --
      whatever happens to the other files. */
  lemma {:induction false} RunEntriesTarget(files: map<Path, string>, access: Access, entries: seq<WalkEntry>,
                                            pairs: seq<Pair>, k: nat)
    requires forall i, j :: 0 <= i < j < |entries| ==> entries[i].path != entries[j].path
    requires k < |entries| && IsTarget(entries[k].name) && entries[k].path in files
    ensures var path := entries[k].path;
      RunEntries(files, access, entries, pairs)[path] ==
        if path in access.unreadable || path in access.unwritable then files[path]
        else FoldReplace(files[path], pairs)
    decreases |entries|
  {
    var n := |entries| - 1;
    var path := entries[k].path;
    var before := RunEntries(files, access, entries[..n], pairs);
    assert RunEntries(files, access, entries, pairs) == ProcessEntry(before, access, entries[n], pairs);
    if k == n {
      assert NeverSelected(entries[..n], path) by {
        forall i | 0 <= i < n ensures entries[..n][i].path != path {
          assert entries[..n][i] == entries[i];
        }
      }
      LastEntryTarget(files, access, entries, pairs);
    } else {
      assert entries[..n][k] == entries[k];
      RunEntriesTarget(files, access, entries[..n], pairs, k);
      assert entries[n].path != path;
      assert ProcessEntry(before, access, entries[n], pairs)[path] == before[path];
    }
  }

  /** The step of RunEntriesTarget for the last entry, whose path no earlier entry
      selects. */
  lemma LastEntryTarget(files: map<Path, string>, access: Access, entries: seq<WalkEntry>, pairs: seq<Pair>)
    requires entries != [] && IsTarget(entries[|entries| - 1].name)
    requires var path := entries[|entries| - 1].path;
      path in files && NeverSelected(entries[..|entries| - 1], path)
    ensures var path := entries[|entries| - 1].path;
      RunEntries(files, access, entries, pairs)[path] ==
        if path in access.unreadable || path in access.unwritable then files[path]
        else FoldReplace(files[path], pairs)
  {
    var n := |entries| - 1;
    var path := entries[n].path;
    var before := RunEntries(files, access, entries[..n], pairs);
    assert before[path] == files[path];
    if path in access.unreadable || path in access.unwritable {
      ApplyPairsBlocked(before, access, path, pairs);
    } else {
      ApplyPairsContent(before, access, path, pairs);
    }
  }

  /** Pairs compose in sequence, not simultaneously: `a -> b` then `b -> c` turns `a`
      into `c`. */
  lemma SequentialExample()
    ensures FoldReplace("a", [Pair("a", "b"), Pair("b", "c")]) == "c"
  {
    var pairs := [Pair("a", "b"), Pair("b", "c")];
    assert pairs[..1] == [Pair("a", "b")];
    assert pairs[..1][..0] == [];
    assert "a"[..1] == "a" && "a"[1..] == "";
    assert "b"[..1] == "b" && "b"[1..] == "";
    assert ReplaceScan("a", "a", "b") == "b" + ReplaceScan("", "a", "b");
    assert ReplaceScan("b", "b", "c") == "c" + ReplaceScan("", "b", "c");
    assert FoldReplace("a", pairs[..1]) == "b";
  }

  /** The whole run: load the pairs; on failure stop before any file is touched;
      otherwise apply every pair to every selected file of the walk, in order. */
  method Run(store: FileStore, bytes: Bytes, decodes: (Bytes, Encoding) -> bool,
             parse: Encoding -> seq<Row>, entries: seq<WalkEntry>)
    returns (status: RunStatus)
    modifies store
    ensures LoadTable(bytes, decodes, parse).Failure? ==>
      status == Aborted(EncodingUndetected) && store.files == old(store.files)
    ensures LoadTable(bytes, decodes, parse).Success? ==>
      status == Completed &&
      store.files == RunEntries(old(store.files), store.access, entries, LoadTable(bytes, decodes, parse).value)
  {
    var loaded := ReadReplacePairs(bytes, decodes, parse);
    if loaded.Failure? {
      return Aborted(loaded.error);
    }
    var pairs := loaded.value;
    for i := 0 to |entries|
      invariant store.files == RunEntries(old(store.files), store.access, entries[..i], pairs)
    {
      var entry := entries[i];
      ghost var start := store.files;
      if IsTarget(entry.name) {
        for j := 0 to |pairs|
          invariant store.files == ApplyPairs(start, store.access, entry.path, pairs[..j])
        {
          var pair := pairs[j];
          var outcome := store.FindAndReplaceInFile(entry.path, pair.find, pair.replace);
          assert pairs[..j + 1][..j] == pairs[..j];
        }
        assert pairs[..|pairs|] == pairs;
      }
      assert entries[..i + 1][..i] == entries[..i];
    }
    assert entries[..|entries|] == entries;
    return Completed;
  }
}
