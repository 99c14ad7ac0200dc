/**
 The Python `str` operations the header validator calls, stated over
 `string` (a `seq<char>`): `startswith`, the `in` operator,
 `split(sep, maxsplit)` and `rstrip(chars)` for a single character. `find`
 and `sep.join(parts)` are not called by the validator; they define `split`
 and state its round trip.
 */
module Strings {

  datatype Option<+T> = None | Some(value: T)

  /** Python's `s.startswith(p)`. */
  predicate StartsWith(s: string, p: string)
  {
    |p| <= |s| && s[..|p|] == p
  }

  /** `startswith` compares the leading characters one by one. */
  lemma StartsWithByChars(s: string, p: string)
    ensures StartsWith(s, p) <==> |p| <= |s| && forall i :: 0 <= i < |p| ==> s[i] == p[i]
  {
    if |p| <= |s| && forall i :: 0 <= i < |p| ==> s[i] == p[i] {
      assert s[..|p|] == p;
    }
  }

  /** `sub` occurs in `s` beginning at index `i`. */
  predicate OccursAt(s: string, sub: string, i: int)
  {
    0 <= i && i + |sub| <= |s| && s[i..i + |sub|] == sub
  }

  /** Python's `sub in s`: literal substring containment, found by sliding a
      window along `s` from the left. */
  function Contains(s: string, sub: string): (r: bool)
    ensures r <==> exists i :: OccursAt(s, sub, i)
    decreases |s|
  {
    if StartsWith(s, sub) then
      assert OccursAt(s, sub, 0);
      true
    else if |s| == 0 then
      assert !OccursAt(s, sub, 0);
      false
    else
      OccurrencesOfTail(s, sub);
      Contains(s[1..], sub)
  }

  /** When `sub` is not at the front of a non-empty `s`, its occurrences in `s`
      are exactly its occurrences in `s[1..]`, shifted by one. */
  lemma OccurrencesOfTail(s: string, sub: string)
    requires |s| > 0 && !StartsWith(s, sub)
    ensures (exists i :: OccursAt(s, sub, i)) <==> (exists i :: OccursAt(s[1..], sub, i))
  {
    if i :| OccursAt(s, sub, i) {
      assert i != 0;
      assert s[1..][i - 1..i - 1 + |sub|] == s[i..i + |sub|];
      assert OccursAt(s[1..], sub, i - 1);
    }
    if i :| OccursAt(s[1..], sub, i) {
      assert s[1..][i..i + |sub|] == s[i + 1..i + 1 + |sub|];
      assert OccursAt(s, sub, i + 1);
    }
  }

  /** Python's `s.find(sub, start)`: the leftmost occurrence of `sub` at or
      after `start`, or `None` where Python answers -1. `FindIsLeftmost`
      states what it finds. */
  function Find(s: string, sub: string, start: nat): (r: Option<nat>)
    ensures r.Some? ==> start <= r.value && r.value + |sub| <= |s|
    decreases |s| - start
  {
    if start + |sub| > |s| then None
    else if s[start..start + |sub|] == sub then Some(start)
    else Find(s, sub, start + 1)
  }

  /** `Find` answers the leftmost occurrence at or after `start`, and `None`
      only when there is no occurrence from `start` on. */
  lemma {:induction false} FindIsLeftmost(s: string, sub: string, start: nat)
    ensures var r := Find(s, sub, start);
      r.Some? ==> start <= r.value && OccursAt(s, sub, r.value)
    ensures var r := Find(s, sub, start);
      r.Some? ==> forall j :: start <= j < r.value ==> !OccursAt(s, sub, j)
    ensures Find(s, sub, start).None? ==> forall j :: start <= j ==> !OccursAt(s, sub, j)
    decreases |s| - start
  {
    if start + |sub| <= |s| && s[start..start + |sub|] != sub {
      FindIsLeftmost(s, sub, start + 1);
    }
  }

  /** Python's `sep.join(parts)`. */
  function Join(parts: seq<string>, sep: string): string
  {
    if |parts| == 0 then []
    else if |parts| == 1 then parts[0]
    else parts[0] + sep + Join(parts[1..], sep)
  }

  /** Python's `s.split(sep, maxsplit)` for a non-empty separator and a
      non-negative `maxsplit`: the separator is searched for from the left,
      occurrences do not overlap, and after `maxsplit` cuts the remainder is
      kept whole as the last part. */
  function Split(s: string, sep: string, maxsplit: nat): (parts: seq<string>)
    requires |sep| > 0
    ensures 1 <= |parts| <= maxsplit + 1
    decreases maxsplit
  {
    if maxsplit == 0 then [s]
    else
      match Find(s, sep, 0)
      case None => [s]
      case Some(j) => [s[..j]] + Split(s[j + |sep|..], sep, maxsplit - 1)
  }

  /** Joining the parts of a split with the same separator gives back the
      original string. */
  lemma {:induction false} SplitJoin(s: string, sep: string, maxsplit: nat)
    requires |sep| > 0
    ensures Join(Split(s, sep, maxsplit), sep) == s
    decreases maxsplit
  {
    if maxsplit > 0 && Find(s, sep, 0).Some? {
      var j := Find(s, sep, 0).value;
      SplitJoin(s[j + |sep|..], sep, maxsplit - 1);
      SplitJoinStep(s, sep, maxsplit, j);
    } else {
      assert Split(s, sep, maxsplit) == [s];
    }
  }

  /** The inductive step of `SplitJoin`: a cut at the leftmost separator is
      undone by the join when the rest of the split is. */
  lemma SplitJoinStep(s: string, sep: string, maxsplit: nat, j: nat)
    requires |sep| > 0 && maxsplit > 0 && Find(s, sep, 0) == Some(j)
    requires Join(Split(s[j + |sep|..], sep, maxsplit - 1), sep) == s[j + |sep|..]
    ensures Join(Split(s, sep, maxsplit), sep) == s
  {
    assert OccursAt(s, sep, j) by {
      FindIsLeftmost(s, sep, 0);
    }
    var tail := s[j + |sep|..];
    var rest := Split(tail, sep, maxsplit - 1);
    calc {
      Join(Split(s, sep, maxsplit), sep);
      { assert Split(s, sep, maxsplit) == [s[..j]] + rest; }
      Join([s[..j]] + rest, sep);
      { JoinCons(s[..j], rest, sep); }
      s[..j] + sep + tail;
      { CutAtOccurrence(s, sep, j); }
      s;
    }
  }

  /** Cutting a text around an occurrence of `sep` and gluing the pieces back
      with `sep` gives the text again. */
  lemma CutAtOccurrence(s: string, sep: string, j: nat)
    requires OccursAt(s, sep, j)
    ensures s[..j] + sep + s[j + |sep|..] == s
  {
    assert s == s[..j] + s[j..j + |sep|] + s[j + |sep|..];
  }

  lemma JoinCons(head: string, rest: seq<string>, sep: string)
    requires |rest| > 0
    ensures Join([head] + rest, sep) == head + sep + Join(rest, sep)
  {
    assert ([head] + rest)[1..] == rest;
  }

  /** A prefix that ends before the first occurrence of `sub` does not
      contain `sub`. */
  lemma PrefixBeforeFirstOccurrence(s: string, sub: string, j: nat)
    requires j <= |s|
    requires forall k :: 0 <= k < j ==> !OccursAt(s, sub, k)
    requires |sub| > 0
    ensures !Contains(s[..j], sub)
  {
    forall i | OccursAt(s[..j], sub, i)
      ensures OccursAt(s, sub, i)
    {
      assert s[..j][i..i + |sub|] == s[i..i + |sub|];
    }
  }

  /** The separator that follows `part` is the first one in `part + sep`: no
      occurrence of `sep` starts inside `part`, not even one that runs on into
      the separator after it. */
  predicate EndsAtFirstSeparator(part: string, sep: string)
  {
    forall j :: 0 <= j < |part| ==> !OccursAt(part + sep, sep, j)
  }

  /** Every part but the last was cut off at the first separator that follows
      it, and the last part holds no separator when fewer than `maxsplit` cuts
      were made. */
  predicate LeftmostCuts(parts: seq<string>, sep: string, maxsplit: nat)
  {
    && (forall k :: 0 <= k < |parts| - 1 ==> EndsAtFirstSeparator(parts[k], sep))
    && (0 < |parts| <= maxsplit ==> !Contains(parts[|parts| - 1], sep))
  }

  /** A split cuts at the separators it meets from the left: every part but
      the last ends where the first separator after it begins, and the last
      part holds no separator either when the split stopped because none was
      left rather than because `maxsplit` was reached. Together with `SplitJoin`
      and the bound on the number of parts this fixes the parts. */
  lemma {:induction false} SplitCutsAtLeftmostSeparators(s: string, sep: string, maxsplit: nat)
    requires |sep| > 0
    ensures LeftmostCuts(Split(s, sep, maxsplit), sep, maxsplit)
    decreases maxsplit
  {
    if maxsplit == 0 || Find(s, sep, 0).None? {
      FindCutsAtFirst(s, sep);
      assert Split(s, sep, maxsplit) == [s];
    } else {
      var j := Find(s, sep, 0).value;
      SplitCutsAtLeftmostSeparators(s[j + |sep|..], sep, maxsplit - 1);
      LeftmostCutsStep(s, sep, maxsplit, j);
    }
  }

  /** The inductive step of `SplitCutsAtLeftmostSeparators`: the part cut off
      at the leftmost separator ends at the first separator, so leftmost cuts
      in the rest of the split make leftmost cuts in the whole. */
  lemma LeftmostCutsStep(s: string, sep: string, maxsplit: nat, j: nat)
    requires |sep| > 0 && maxsplit > 0 && Find(s, sep, 0) == Some(j)
    requires LeftmostCuts(Split(s[j + |sep|..], sep, maxsplit - 1), sep, maxsplit - 1)
    ensures LeftmostCuts(Split(s, sep, maxsplit), sep, maxsplit)
  {
    FindCutsAtFirst(s, sep);
    var rest := Split(s[j + |sep|..], sep, maxsplit - 1);
    assert Split(s, sep, maxsplit) == [s[..j]] + rest;
    LeftmostCutsCons(s[..j], rest, sep, maxsplit - 1);
  }

  /** The whole text holds no separator when `Find` finds none, and the text
      before the leftmost separator ends at the first separator when it finds
      one. */
  lemma FindCutsAtFirst(s: string, sep: string)
    requires |sep| > 0
    ensures Find(s, sep, 0).None? ==> !Contains(s, sep)
    ensures Find(s, sep, 0).Some? ==> EndsAtFirstSeparator(s[..Find(s, sep, 0).value], sep)
  {
    FindIsLeftmost(s, sep, 0);
    match Find(s, sep, 0)
    case None =>
      PrefixBeforeFirstOccurrence(s, sep, |s|);
      assert s[..|s|] == s;
    case Some(j) =>
      PrefixEndsAtFirstSeparator(s, sep, j);
  }

  /** The text before an occurrence of `sep` that has no earlier occurrence
      ends at the first separator. */
  lemma PrefixEndsAtFirstSeparator(s: string, sep: string, j: nat)
    requires OccursAt(s, sep, j)
    requires forall k :: 0 <= k < j ==> !OccursAt(s, sep, k)
    ensures EndsAtFirstSeparator(s[..j], sep)
  {
    assert s[..j] + sep == s[..j + |sep|];
    forall i | 0 <= i < j && OccursAt(s[..j] + sep, sep, i)
      ensures OccursAt(s, sep, i)
    {
      assert (s[..j] + sep)[i..i + |sep|] == s[i..i + |sep|];
    }
  }

  /** Prepending a part that ends at the first separator keeps the cuts
      leftmost, with one more cut allowed. */
  lemma LeftmostCutsCons(head: string, rest: seq<string>, sep: string, n: nat)
    requires EndsAtFirstSeparator(head, sep) && 1 <= |rest|
    requires LeftmostCuts(rest, sep, n)
    ensures LeftmostCuts([head] + rest, sep, n + 1)
  {
    var parts := [head] + rest;
    assert forall k :: 0 <= k < |parts| - 1 ==> EndsAtFirstSeparator(parts[k], sep) by {
      forall k | 0 <= k < |parts| - 1
        ensures EndsAtFirstSeparator(parts[k], sep)
      {
        if k > 0 {
          assert parts[k] == rest[k - 1];
        }
      }
    }
    assert parts[|parts| - 1] == rest[|rest| - 1];
  }

  /** The leftmost-cut property pins the split down: any parts that join back
      to `s`, number at most `maxsplit + 1` and cut at the leftmost separators
      are exactly the parts of `Split`. */
  lemma {:induction false} LeftmostCutsDetermineSplit(s: string, sep: string, maxsplit: nat, parts: seq<string>)
    requires |sep| > 0
    requires 1 <= |parts| <= maxsplit + 1
    requires Join(parts, sep) == s
    requires LeftmostCuts(parts, sep, maxsplit)
    ensures parts == Split(s, sep, maxsplit)
    decreases |parts|
  {
    if |parts| == 1 {
      if maxsplit > 0 {
        SeparatorFreeSplitsWhole(s, sep, maxsplit);
      }
    } else {
      var head, rest := parts[0], parts[1..];
      var tail := Join(rest, sep);
      assert parts == [head] + rest;
      assert s == head + sep + tail by {
        JoinCons(head, rest, sep);
      }
      assert EndsAtFirstSeparator(head, sep) && rest == Split(tail, sep, maxsplit - 1) by {
        LeftmostCutsTail(parts, sep, maxsplit);
        LeftmostCutsDetermineSplit(tail, sep, maxsplit - 1, rest);
      }
      SplitAtHead(head, sep, tail, maxsplit);
    }
  }

  /** Dropping the first part of leftmost cuts leaves leftmost cuts, with one
      cut fewer allowed. */
  lemma LeftmostCutsTail(parts: seq<string>, sep: string, maxsplit: nat)
    requires 2 <= |parts| <= maxsplit + 1
    requires LeftmostCuts(parts, sep, maxsplit)
    ensures EndsAtFirstSeparator(parts[0], sep)
    ensures LeftmostCuts(parts[1..], sep, maxsplit - 1)
  {
    var rest := parts[1..];
    assert forall k :: 0 <= k < |rest| - 1 ==> rest[k] == parts[k + 1];
    assert rest[|rest| - 1] == parts[|parts| - 1];
  }

  /** Splitting `head + sep + tail`, where `head` ends at the first separator,
      cuts off `head` and splits `tail` with one cut fewer. */
  lemma SplitAtHead(head: string, sep: string, tail: string, maxsplit: nat)
    requires |sep| > 0 && maxsplit > 0 && EndsAtFirstSeparator(head, sep)
    ensures Split(head + sep + tail, sep, maxsplit) == [head] + Split(tail, sep, maxsplit - 1)
  {
    var s := head + sep + tail;
    FirstSeparatorAfterHead(head, sep, tail);
    assert s[..|head|] == head;
    assert s[|head| + |sep|..] == tail;
  }

  /** A text without the separator is split into itself alone. */
  lemma SeparatorFreeSplitsWhole(s: string, sep: string, maxsplit: nat)
    requires |sep| > 0 && !Contains(s, sep)
    ensures Split(s, sep, maxsplit) == [s]
  {
    FindIsLeftmost(s, sep, 0);
  }

  /** In `head + sep + tail`, where `head` ends at the first separator, the
      leftmost separator is the one right after `head`. */
  lemma FirstSeparatorAfterHead(head: string, sep: string, tail: string)
    requires |sep| > 0 && EndsAtFirstSeparator(head, sep)
    ensures Find(head + sep + tail, sep, 0) == Some(|head|)
  {
    var s := head + sep + tail;
    ContainsSpliced(head, sep, tail);
    forall j | 0 <= j < |head| && OccursAt(s, sep, j)
      ensures OccursAt(head + sep, sep, j)
    {
      assert s[j..j + |sep|] == (head + sep)[j..j + |sep|];
    }
    FindIsLeftmost(s, sep, 0);
  }

  /** A part that ends at the first separator holds no separator (the empty
      separator occurs everywhere, so it is excluded). */
  lemma EndsAtFirstSeparatorIsFree(part: string, sep: string)
    requires |sep| > 0 && EndsAtFirstSeparator(part, sep)
    ensures !Contains(part, sep)
  {
    forall i | OccursAt(part, sep, i)
      ensures OccursAt(part + sep, sep, i)
    {
      assert (part + sep)[i..i + |sep|] == part[i..i + |sep|];
    }
  }

  /** Python's `s.rstrip(c)` for a single character `c`: every trailing `c` is
      removed. */
  function RStrip(s: string, c: char): (r: string)
    ensures StartsWith(s, r)
    ensures |r| == 0 || r[|r| - 1] != c
    ensures forall i :: |r| <= i < |s| ==> s[i] == c
    decreases |s|
  {
    if |s| > 0 && s[|s| - 1] == c then RStrip(s[..|s| - 1], c) else s
  }

  /** A text glued together around `sub` contains `sub`. */
  lemma ContainsSpliced(before: string, sub: string, after: string)
    ensures OccursAt(before + sub + after, sub, |before|)
    ensures Contains(before + sub + after, sub)
  {
    assert (before + sub + after)[|before|..|before| + |sub|] == sub;
    assert OccursAt(before + sub + after, sub, |before|);
  }

  /** Text appended after an occurrence leaves it in place. */
  lemma ContainsExtended(s: string, sub: string, t: string)
    requires Contains(s, sub)
    ensures Contains(s + t, sub)
  {
    var i :| OccursAt(s, sub, i);
    assert (s + t)[i..i + |sub|] == s[i..i + |sub|];
    assert OccursAt(s + t, sub, i);
  }

  /** A text that lacks one of the characters of `sub` does not contain
      `sub`. */
  lemma AbsentCharMeansAbsent(s: string, sub: string, k: nat)
    requires k < |sub|
    requires forall i :: 0 <= i < |s| ==> s[i] != sub[k]
    ensures !Contains(s, sub)
  {
    forall i | OccursAt(s, sub, i)
      ensures s[i + k] == sub[k]
    {
      assert s[i..i + |sub|][k] == sub[k];
    }
  }
}
