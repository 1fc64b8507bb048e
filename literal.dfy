/**
 * Literal (non-regex) find-and-replace on text, with the semantics of Python's
 * `str.replace(old, new)`: the text is scanned left to right and every leftmost,
 * non-overlapping occurrence of `old` is replaced by `new`. When `old` is empty,
 * `new` is inserted before every character and once more at the end.
 *
 * Beside the model (ReplaceAll) stands an independent reference built from a
 * leftmost search (IndexOf), a split on the separator (Split) and a join (Join):
 * `s.replace(old, new) == new.join(s.split(old))`.
 */
module Literal {
  import opened Wrappers

  /** `find` occurs in `s` starting at index `j`. */
  predicate OccursAt(s: string, find: string, j: nat)
  {
    j + |find| <= |s| && s[j..j + |find|] == find
  }

  /** `find` occurs somewhere in `s` (Python's `find in s`). */
  ghost predicate Occurs(find: string, s: string)
  {
    exists j: nat :: OccursAt(s, find, j)
  }

  /** Literal replace-all, as Python's `s.replace(find, rep)`. */
  function ReplaceAll(s: string, find: string, rep: string): string
  {
    if find == [] then ReplaceEmpty(s, rep) else ReplaceScan(s, find, rep)
  }

  /** The left-to-right scan for a non-empty `find`: replace at the current position
      when `find` starts there and jump past it, otherwise keep one character. */
  function ReplaceScan(s: string, find: string, rep: string): string
    requires find != []
    decreases |s|
  {
    if |s| < |find| then s
    else if s[..|find|] == find then rep + ReplaceScan(s[|find|..], find, rep)
    else [s[0]] + ReplaceScan(s[1..], find, rep)
  }

  /** The empty-`find` case: `rep` before every character and at the end. */
  function ReplaceEmpty(s: string, rep: string): string
  {
    if s == [] then rep else rep + [s[0]] + ReplaceEmpty(s[1..], rep)
  }

  /** The index of the leftmost occurrence of `find` in `s`, if any. */
  function IndexOf(s: string, find: string): (r: Option<nat>)
    requires find != []
    ensures r.Some? ==> OccursAt(s, find, r.value)
    ensures r.Some? ==> forall j: nat :: j < r.value ==> !OccursAt(s, find, j)
    ensures r.None? ==> forall j: nat :: !OccursAt(s, find, j)
  {
    IndexFrom(s, find, 0)
  }

  /** The leftmost occurrence of `find` in `s` at or after `start`. */
  function IndexFrom(s: string, find: string, start: nat): (r: Option<nat>)
    requires find != []
    ensures r.Some? ==> start <= r.value && OccursAt(s, find, r.value)
    ensures r.Some? ==> forall j: nat :: start <= j < r.value ==> !OccursAt(s, find, j)
    ensures r.None? ==> forall j: nat :: start <= j ==> !OccursAt(s, find, j)
    decreases |s| - start
  {
    if start + |find| > |s| then None
    else if OccursAt(s, find, start) then Some(start)
    else IndexFrom(s, find, start + 1)
  }

  /** Dropping the first character shifts every occurrence one to the left. */
  lemma OccursAtTail(s: string, find: string)
    requires s != []
    ensures forall j: nat {:trigger OccursAt(s[1..], find, j)} ::
      OccursAt(s, find, j + 1) <==> OccursAt(s[1..], find, j)
    ensures forall j: nat {:trigger OccursAt(s, find, j)} ::
      j > 0 ==> (OccursAt(s, find, j) <==> OccursAt(s[1..], find, j - 1))
  {
    forall j: nat
      ensures OccursAt(s, find, j + 1) <==> OccursAt(s[1..], find, j)
    {
      if j + |find| <= |s[1..]| {
        assert s[1..][j..j + |find|] == s[j + 1..j + 1 + |find|];
      }
    }
  }

  /** When `find` does not start `s`, its leftmost occurrence is that of the tail, shifted. */
  lemma IndexOfTail(s: string, find: string)
    requires find != [] && s != [] && !OccursAt(s, find, 0)
    ensures IndexOf(s, find) == match IndexOf(s[1..], find)
                                case None => None
                                case Some(i) => Some(i + 1)
  {
    OccursAtTail(s, find);
    var r, t := IndexOf(s, find), IndexOf(s[1..], find);
    if r.Some? {
      assert r.value > 0;
      assert t.Some? && t.value == r.value - 1 by {
        assert OccursAt(s[1..], find, r.value - 1);
      }
    }
  }

  /** One step of Split when `find` occurs at `i` first. */
  lemma SplitAt(s: string, find: string, i: nat)
    requires find != [] && IndexOf(s, find) == Some(i)
    ensures i + |find| <= |s|
    ensures Split(s, find) == [s[..i]] + Split(s[i + |find|..], find)
  {
  }

  /** Cuts `s` at every leftmost, non-overlapping occurrence of `find`
      (Python's `s.split(find)`). */
  function Split(s: string, find: string): (parts: seq<string>)
    requires find != []
    ensures |parts| >= 1
    decreases |s|
  {
    var r := IndexOf(s, find);
    if r.None? then [s] else [s[..r.value]] + Split(s[r.value + |find|..], find)
  }

  /** Concatenates `parts` with `sep` between neighbours (Python's `sep.join(parts)`). */
  function Join(parts: seq<string>, sep: string): string
  {
    if parts == [] then []
    else if |parts| == 1 then parts[0]
    else parts[0] + sep + Join(parts[1..], sep)
  }

  lemma JoinCons(x: string, parts: seq<string>, sep: string)
    requires parts != []
    ensures Join([x] + parts, sep) == x + sep + Join(parts, sep)
  {
    assert ([x] + parts)[1..] == parts;
  }

  /** A shorter separator never gives a longer join. */
  lemma {:induction false} JoinLengthLe(parts: seq<string>, a: string, b: string)
    requires |a| <= |b|
    ensures |Join(parts, a)| <= |Join(parts, b)|
    decreases |parts|
  {
    if |parts| > 1 {
      JoinLengthLe(parts[1..], a, b);
    }
  }

  /** The scan and the split-then-join reference agree. */
  lemma {:induction false} ScanIsJoinOfSplit(s: string, find: string, rep: string)
    requires find != []
    ensures ReplaceScan(s, find, rep) == Join(Split(s, find), rep)
    decreases |s|
  {
    if |s| < |find| {
      assert IndexOf(s, find) == None;
    } else if s[..|find|] == find {
      ScanIsJoinOfSplit(s[|find|..], find, rep);
      ScanMatchIsJoin(s, find, rep);
    } else {
      ScanIsJoinOfSplit(s[1..], find, rep);
      ScanStepIsJoin(s, find, rep);
    }
  }

  /** The step of ScanIsJoinOfSplit where `find` starts `s` (the rest assumed). */
  lemma ScanMatchIsJoin(s: string, find: string, rep: string)
    requires find != [] && |s| >= |find| && s[..|find|] == find
    requires ReplaceScan(s[|find|..], find, rep) == Join(Split(s[|find|..], find), rep)
    ensures ReplaceScan(s, find, rep) == Join(Split(s, find), rep)
  {
    var rest := s[|find|..];
    assert ReplaceScan(s, find, rep) == rep + ReplaceScan(rest, find, rep);
    assert IndexOf(s, find) == Some(0) by {
      assert OccursAt(s, find, 0);
    }
    assert Join(Split(s, find), rep) == [] + rep + Join(Split(rest, find), rep) by {
      JoinAtFirst(s, find, rep, 0);
      assert s[..0] == [] && s[0 + |find|..] == rest;
    }
  }

  /** The step of ScanIsJoinOfSplit where `find` does not start `s` (the tail case
      assumed). */
  lemma ScanStepIsJoin(s: string, find: string, rep: string)
    requires find != [] && |s| >= |find| && s[..|find|] != find
    requires ReplaceScan(s[1..], find, rep) == Join(Split(s[1..], find), rep)
    ensures ReplaceScan(s, find, rep) == Join(Split(s, find), rep)
  {
    var tail := s[1..];
    assert ReplaceScan(s, find, rep) == [s[0]] + ReplaceScan(tail, find, rep);
    IndexOfTail(s, find);
    var t := IndexOf(tail, find);
    if t.None? {
      assert Split(tail, find) == [tail];
      assert Split(s, find) == [s];
      assert [s[0]] + tail == s;
    } else {
      JoinShift(s, find, rep, t.value);
    }
  }

  /** Split of `s` and of its tail share all pieces but the first, which differ by the
      first character of `s`. */
  lemma JoinShift(s: string, find: string, rep: string, i: nat)
    requires find != [] && s != [] && IndexOf(s[1..], find) == Some(i)
    requires IndexOf(s, find) == Some(i + 1)
    ensures [s[0]] + Join(Split(s[1..], find), rep) == Join(Split(s, find), rep)
  {
    var tail := s[1..];
    JoinAtFirst(tail, find, rep, i);
    JoinAtFirst(s, find, rep, i + 1);
    assert tail[i + |find|..] == s[i + 1 + |find|..];
    var j := Join(Split(s[i + 1 + |find|..], find), rep);
    ConsAssoc(s[0], tail[..i], s[..i + 1], rep, j);
  }

  /** The join of a split whose first cut is at `i`. */
  lemma JoinAtFirst(s: string, find: string, rep: string, i: nat)
    requires find != [] && IndexOf(s, find) == Some(i)
    ensures i + |find| <= |s|
    ensures Join(Split(s, find), rep) == s[..i] + rep + Join(Split(s[i + |find|..], find), rep)
  {
    SplitAt(s, find, i);
    JoinCons(s[..i], Split(s[i + |find|..], find), rep);
  }

  lemma ConsAssoc(c: char, x: string, y: string, rep: string, j: string)
    requires [c] + x == y
    ensures [c] + (x + rep + j) == y + rep + j
  {
  }

  /** Replace-all of a non-empty `find` is `rep.join(s.split(find))`. */
  lemma ReplaceIsJoinOfSplit(s: string, find: string, rep: string)
    requires find != []
    ensures ReplaceAll(s, find, rep) == Join(Split(s, find), rep)
  {
    ScanIsJoinOfSplit(s, find, rep);
  }

  /** Joining the pieces back with `find` itself restores the text. */
  lemma {:induction false} SplitJoinRoundTrip(s: string, find: string)
    requires find != []
    ensures Join(Split(s, find), find) == s
    decreases |s|
  {
    var r := IndexOf(s, find);
    if r.Some? {
      var i := r.value;
      var rest := s[i + |find|..];
      SplitAt(s, find, i);
      SplitJoinRoundTrip(rest, find);
      JoinCons(s[..i], Split(rest, find), find);
      assert s[..i] + find + rest == s by {
        assert s[i..i + |find|] == find;
      }
    }
  }

  /** An occurrence inside a prefix of `s` is an occurrence in `s`. */
  lemma OccursInPrefix(s: string, find: string, n: nat, j: nat)
    requires n <= |s| && OccursAt(s[..n], find, j)
    ensures OccursAt(s, find, j) && j + |find| <= n
  {
    assert s[..n][j..j + |find|] == s[j..j + |find|];
  }

  /** Split cuts at the LEFTMOST occurrences: no piece, extended by all but the last
      character of the separator that follows it, contains `find`, and the final piece
      contains no `find` at all. So no occurrence is skipped and none overlaps a cut
      from the left. */
  lemma {:induction false} SplitIsLeftmost(s: string, find: string)
    requires find != []
    ensures var parts := Split(s, find);
      && (forall k :: 0 <= k < |parts| - 1 ==> !Occurs(find, parts[k] + find[..|find| - 1]))
      && !Occurs(find, parts[|parts| - 1])
    decreases |s|
  {
    match IndexOf(s, find)
    case None =>
    case Some(i) =>
      var rest := s[i + |find|..];
      SplitIsLeftmost(rest, find);
      var parts := Split(s, find);
      assert parts == [s[..i]] + Split(rest, find);
      assert s[..i] + find[..|find| - 1] == s[..i + |find| - 1] by {
        assert s[i..i + |find|] == find;
      }
      if Occurs(find, s[..i + |find| - 1]) {
        var j: nat :| OccursAt(s[..i + |find| - 1], find, j);
        OccursInPrefix(s, find, i + |find| - 1, j);
        assert false;
      }
      forall k | 1 <= k < |parts| - 1
        ensures !Occurs(find, parts[k] + find[..|find| - 1])
      {
        assert parts[k] == Split(rest, find)[k - 1];
      }
  }

  /** Length facts for the empty-`find` case; `rep == ""` changes nothing. */
  lemma {:induction false} ReplaceEmptyLength(s: string, rep: string)
    ensures |ReplaceEmpty(s, rep)| >= |s| + |rep|
    ensures rep == [] ==> ReplaceEmpty(s, rep) == s
    decreases |s|
  {
    if s != [] {
      ReplaceEmptyLength(s[1..], rep);
      assert [s[0]] + s[1..] == s;
    }
  }

  /** The empty string occurs in every text (at index 0). */
  lemma EmptyOccurs(s: string)
    ensures Occurs([], s)
  {
    assert OccursAt(s, [], 0);
  }

  /** Replace-all leaves the text as it was exactly when `find` does not occur in it or
      `rep` equals `find`. (An empty `find` always occurs, so there the text stays
      as it was exactly when `rep` is empty too.) */
  lemma ReplaceUnchangedIff(s: string, find: string, rep: string)
    ensures ReplaceAll(s, find, rep) == s <==> (!Occurs(find, s) || find == rep)
  {
    if find == [] {
      EmptyOccurs(s);
      ReplaceEmptyLength(s, rep);
    } else {
      ReplaceIsJoinOfSplit(s, find, rep);
      SplitJoinRoundTrip(s, find);
      match IndexOf(s, find)
      case None =>
      case Some(i) =>
        assert Occurs(find, s);
        if find != rep {
          var more := Split(s[i + |find|..], find);
          JoinCons(s[..i], more, rep);
          JoinCons(s[..i], more, find);
          var r := ReplaceAll(s, find, rep);
          assert r == s[..i] + rep + Join(more, rep);
          assert s == s[..i] + find + Join(more, find);
          if |rep| == |find| {
            assert r[i..i + |rep|] == rep;
            assert s[i..i + |find|] == find;
          } else if |rep| < |find| {
            JoinLengthLe(more, rep, find);
          } else {
            JoinLengthLe(more, find, rep);
          }
        }
    }
  }

  /** A text in which `find` does not occur is returned unchanged. */
  lemma NoOccurrenceUnchanged(s: string, find: string, rep: string)
    requires !Occurs(find, s)
    ensures ReplaceAll(s, find, rep) == s
  {
    ReplaceUnchangedIff(s, find, rep);
  }

  /** Each character of `s` as a one-character piece. */
  function Chars(s: string): (r: seq<string>)
    ensures |r| == |s|
  {
    seq(|s|, i requires 0 <= i < |s| => [s[i]])
  }

  /** With an empty `find`, the result is `rep` joined between an empty piece, every
      character, and another empty piece: `rep` at the start, between any two
      characters and at the end. */
  lemma {:induction false} ReplaceEmptyIsJoin(s: string, rep: string)
    ensures ReplaceAll(s, [], rep) == Join([[]] + Chars(s) + [[]], rep)
    decreases |s|
  {
    if s == [] {
      assert [[]] + Chars(s) + [[]] == [[], []];
      JoinCons([], [[]], rep);
    } else {
      var t := s[1..];
      ReplaceEmptyIsJoin(t, rep);
      assert Chars(s) == [[s[0]]] + Chars(t);
      assert [[]] + Chars(s) + [[]] == [[]] + ([[s[0]]] + (Chars(t) + [[]]));
      assert [[]] + Chars(t) + [[]] == [[]] + (Chars(t) + [[]]);
      JoinCons([], [[s[0]]] + (Chars(t) + [[]]), rep);
      JoinCons([s[0]], Chars(t) + [[]], rep);
      JoinCons([], Chars(t) + [[]], rep);
    }
  }

  /** Leftmost, non-overlapping: three `a`s with `aa` replaced by `b` give `ba`, not `ab`
      or `bb`. */
  lemma LeftmostExample()
    ensures ReplaceAll("aaa", "aa", "b") == "ba"
  {
    assert "aaa"[..2] == "aa";
    assert "aaa"[2..] == "a";
  }

  /** The empty `find` inserts `rep` at every position, the start and the end included. */
  lemma EmptyFindExample()
    ensures ReplaceAll("ab", "", "-") == "-a-b-"
    ensures ReplaceAll("", "", "-") == "-"
  {
    assert "ab"[1..] == "b";
    assert "b"[1..] == "";
  }
}
