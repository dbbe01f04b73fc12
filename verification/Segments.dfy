/** A path as the list of its segments between separators. */
module Segments {
  import opened Sequences

  function Split<T(==)>(s: seq<T>, sep: T): (r: seq<seq<T>>)
    ensures |r| >= 1
  {
    if s == [] then [[]]
    else if s[0] == sep then [[]] + Split(s[1..], sep)
    else
      var r := Split(s[1..], sep);
      [[s[0]] + r[0]] + r[1..]
  }

  /** Splitting loses nothing, and no segment holds a separator. */
  lemma {:induction false} SplitJoins<T>(s: seq<T>, sep: T)
    ensures Join(Split(s, sep), [sep]) == s
    ensures forall i | 0 <= i < |Split(s, sep)| :: sep !in Split(s, sep)[i]
  {
    if s != [] {
      var r, t := Split(s, sep), Split(s[1..], sep);
      SplitJoins(s[1..], sep);
      if s[0] == sep {
        assert r[1..] == t;
        assert Join(r, [sep]) == [] + [sep] + Join(t, [sep]);
      } else {
        assert r[1..] == t[1..];
        assert Join(r, [sep]) == [s[0]] + Join(t, [sep]);
      }
    }
  }

  /** The first segment ends at the first separator. */
  lemma {:induction false} SplitFirst<T>(s: seq<T>, sep: T, n: nat)
    requires n <= |s| && sep !in s[..n]
    ensures n < |s| && s[n] == sep ==> Split(s, sep) == [s[..n]] + Split(s[n + 1..], sep)
    ensures n == |s| ==> Split(s, sep) == [s]
    decreases n
  {
    if n == 0 {
      assert s[..0] == [];
    } else {
      var t := s[1..];
      assert s[0] == s[..n][0];
      assert t[..n - 1] == s[..n][1..];
      assert s == [s[0]] + t;
      SplitFirst(t, sep, n - 1);
      if n < |s| && s[n] == sep {
        assert t[n..] == s[n + 1..];
        assert s[..n] == [s[0]] + t[..n - 1];
        assert Split(t, sep)[1..] == Split(t[n..], sep);
      }
    }
  }

  predicate Every<T>(segments: seq<seq<T>>, ok: seq<T> -> bool) {
    segments == [] || (ok(segments[0]) && Every(segments[1..], ok))
  }

  lemma {:induction false} EveryIsForall<T>(segments: seq<seq<T>>, ok: seq<T> -> bool)
    ensures Every(segments, ok) <==> forall i | 0 <= i < |segments| :: ok(segments[i])
  {
    if segments != [] {
      EveryIsForall(segments[1..], ok);
      assert forall i | 1 <= i < |segments| :: segments[i] == segments[1..][i - 1];
    }
  }

  lemma {:induction false} SegmentGrows<T>(s: seq<T>, sep: T, segment: nat, cursor: nat)
    requires segment <= cursor < |s| && sep !in s[segment..cursor] && s[cursor] != sep
    ensures sep !in s[segment..cursor + 1]
  {
    assert s[segment..cursor + 1] == s[segment..cursor] + [s[cursor]];
  }

  /** A scan from the start of a segment to its end at cursor decides about that segment; the rest follows the separator. */
  lemma EverySegment<T>(s: seq<T>, sep: T, ok: seq<T> -> bool, segment: nat, cursor: nat)
    requires segment <= cursor <= |s| && sep !in s[segment..cursor]
    requires cursor < |s| ==> s[cursor] == sep
    ensures Every(Split(s[segment..], sep), ok)
         == (ok(s[segment..cursor]) && (cursor < |s| ==> Every(Split(s[cursor + 1..], sep), ok)))
  {
    var rest, n := s[segment..], cursor - segment;
    assert rest[..n] == s[segment..cursor];
    SplitFirst(rest, sep, n);
    if cursor < |s| {
      var next := Split(s[cursor + 1..], sep);
      assert rest[n + 1..] == s[cursor + 1..];
      assert ([s[segment..cursor]] + next)[1..] == next;
    } else {
      assert rest == s[segment..cursor];
    }
  }

  /** A separator between two texts separates their segments. */
  lemma {:induction false} SplitAppend<T>(first: seq<T>, sep: T, second: seq<T>)
    ensures Split(first + [sep] + second, sep) == Split(first, sep) + Split(second, sep)
  {
    var s := first + [sep] + second;
    if first == [] {
      assert s[1..] == second;
    } else {
      assert s[0] == first[0] && s[1..] == first[1..] + [sep] + second;
      SplitAppend(first[1..], sep, second);
    }
  }

  // Where a path leads

  /** Following segments from a directory: empty and "." segments stay, ".." goes up. */
  function Follow<T(==)>(segments: seq<seq<T>>, at: seq<seq<T>>, dot: T): seq<seq<T>> {
    if segments == [] then at
    else if segments[0] == [] || segments[0] == [dot] then Follow(segments[1..], at, dot)
    else if segments[0] == [dot, dot] then Follow(segments[1..], if at == [] then [] else at[..|at| - 1], dot)
    else Follow(segments[1..], at + [segments[0]], dot)
  }

  lemma {:induction false} FollowAppend<T>(first: seq<seq<T>>, second: seq<seq<T>>, at: seq<seq<T>>, dot: T)
    ensures Follow(first + second, at, dot) == Follow(second, Follow(first, at, dot), dot)
    decreases |first|
  {
    if first == [] {
      assert first + second == second;
    } else {
      var rest := first[1..];
      assert (first + second)[1..] == rest + second;
      if first[0] == [] || first[0] == [dot] {
        FollowAppend(rest, second, at, dot);
      } else if first[0] == [dot, dot] {
        FollowAppend(rest, second, if at == [] then [] else at[..|at| - 1], dot);
      } else {
        FollowAppend(rest, second, at + [first[0]], dot);
      }
    }
  }

  /** Without ".." nothing on the way is left. */
  lemma {:induction false} FollowStaysBelow<T>(segments: seq<seq<T>>, at: seq<seq<T>>, dot: T)
    requires forall i | 0 <= i < |segments| :: segments[i] != [dot, dot]
    ensures at <= Follow(segments, at, dot)
    decreases |segments|
  {
    if segments == [] {
    } else if segments[0] == [] || segments[0] == [dot] {
      FollowStaysBelow(segments[1..], at, dot);
    } else {
      FollowStaysBelow(segments[1..], at + [segments[0]], dot);
    }
  }

  /** Plain segments are gone into one after the other. */
  lemma {:induction false} FollowPlain<T>(segments: seq<seq<T>>, at: seq<seq<T>>, dot: T)
    requires forall i | 0 <= i < |segments| :: segments[i] != [] && segments[i] != [dot] && segments[i] != [dot, dot]
    ensures Follow(segments, at, dot) == at + segments
    decreases |segments|
  {
    if segments != [] {
      FollowPlain(segments[1..], at + [segments[0]], dot);
      assert at + [segments[0]] + segments[1..] == at + segments;
    }
  }
}
