/**
 * Handle names. A node handle is named like `source-top` or `target-left`; the store takes
 * the direction word from it with `handle.split("-").at(-1)`. `Split` models the string
 * split on '-', `Join` is its inverse, and `LastSegment` is the element `at(-1)` returns.
 */
module Handles {

  const Dash: char := '-'

  /** Splits `s` at every '-' (no limit, empty pieces kept), like `s.split("-")`. */
  function Split(s: string): (parts: seq<string>)
    ensures |parts| >= 1
    ensures forall i :: 0 <= i < |parts| ==> Dash !in parts[i]
  {
    if s == [] then [[]]
    else
      var rest := Split(s[1..]);
      if s[0] == Dash then [[]] + rest
      else [[s[0]] + rest[0]] + rest[1..]
  }

  /** Glues the pieces back together with '-' between them, like `parts.join("-")`. */
  function Join(parts: seq<string>): string
    requires |parts| >= 1
  {
    if |parts| == 1 then parts[0] else parts[0] + [Dash] + Join(parts[1..])
  }

  /** The last piece of the split, which is what `split("-").at(-1)` returns. */
  function LastSegment(s: string): string
  {
    var parts := Split(s);
    parts[|parts| - 1]
  }

  /** Splitting and joining again gives back the original handle name. */
  lemma {:induction false} JoinSplit(s: string)
    ensures Join(Split(s)) == s
  {
    if s != [] {
      var rest := Split(s[1..]);
      JoinSplit(s[1..]);
      if s[0] == Dash {
        assert Split(s) == [[]] + rest;
        assert Split(s)[1..] == rest;
      } else {
        var parts := Split(s);
        assert parts == [[s[0]] + rest[0]] + rest[1..];
        if |rest| == 1 {
          assert Join(parts) == [s[0]] + rest[0];
        } else {
          assert parts[1..] == rest[1..];
          assert Join(parts) == [s[0]] + rest[0] + [Dash] + Join(rest[1..]);
          assert Join(rest) == rest[0] + [Dash] + Join(rest[1..]);
        }
        assert s == [s[0]] + s[1..];
      }
    }
  }

  /** A dash-free prefix sticks to the first piece of whatever follows it. */
  lemma {:induction false} SplitPrefix(p: string, t: string)
    requires Dash !in p
    ensures Split(p + t) == [p + Split(t)[0]] + Split(t)[1..]
  {
    if p != [] {
      SplitPrefix(p[1..], t);
      assert (p + t)[1..] == p[1..] + t;
      assert (p + t)[0] == p[0];
      assert [p[0]] + (p[1..] + Split(t)[0]) == p + Split(t)[0];
    } else {
      var q := Split(t);
      assert p + t == t;
      assert p + q[0] == q[0];
      assert q == [q[0]] + q[1..];
    }
  }

  /** Joining dash-free pieces and splitting again gives back the pieces. */
  lemma {:induction false} SplitJoin(parts: seq<string>)
    requires |parts| >= 1
    requires forall i :: 0 <= i < |parts| ==> Dash !in parts[i]
    ensures Split(Join(parts)) == parts
  {
    if |parts| == 1 {
      SplitPrefix(parts[0], []);
      assert parts[0] + [] == parts[0];
    } else {
      var tail := [Dash] + Join(parts[1..]);
      SplitJoin(parts[1..]);
      assert tail[1..] == Join(parts[1..]);
      assert Split(tail) == [[]] + parts[1..];
      assert Split(tail)[0] == [] && Split(tail)[1..] == parts[1..];
      SplitPrefix(parts[0], tail);
      assert parts[0] + tail == Join(parts);
      assert parts[0] + [] == parts[0];
      assert parts == [parts[0]] + parts[1..];
    }
  }

  /** A name without '-' is a single piece. */
  lemma {:induction false} SplitNoDash(s: string)
    requires Dash !in s
    ensures Split(s) == [s]
  {
    if s != [] {
      SplitNoDash(s[1..]);
      assert s == [s[0]] + s[1..];
    }
  }

  /** The last segment of a name is that of its tail, unless the name has no '-' at all. */
  lemma LastSegmentStep(s: string)
    requires s != []
    ensures Dash in s ==> LastSegment(s) == LastSegment(s[1..])
    ensures Dash !in s ==> LastSegment(s) == s
  {
    if Dash !in s {
      SplitNoDash(s);
    } else if s[0] != Dash {
      assert Dash in s[1..] by {
        var i :| 0 <= i < |s| && s[i] == Dash;
        assert s[1..][i - 1] == Dash;
      }
      JoinSplit(s[1..]);
    }
  }

  /**
   * The last segment is the dash-free tail of the name: it ends the name, contains no '-',
   * and is either the whole name or preceded by a '-'.
   */
  lemma {:induction false} LastSegmentIsTail(s: string)
    ensures var r := LastSegment(s);
      && |r| <= |s| && s[|s| - |r|..] == r && Dash !in r
      && (|r| < |s| ==> s[|s| - |r| - 1] == Dash)
  {
    if s != [] {
      LastSegmentStep(s);
      if Dash in s {
        LastSegmentIsTail(s[1..]);
        var r := LastSegment(s);
        assert s[1..][|s| - 1 - |r|..] == s[|s| - |r|..];
        if |r| == |s| - 1 {
          assert s[1..] == r;
        } else {
          assert s[|s| - |r| - 1] == s[1..][|s| - 1 - |r| - 1];
        }
      }
    }
  }

  /**
   * The direction guard of the store: the last segment is empty exactly when the handle
   * name is empty or ends with '-'.
   */
  lemma LastSegmentEmpty(s: string)
    ensures LastSegment(s) == [] <==> (s == [] || s[|s| - 1] == Dash)
  {
    LastSegmentIsTail(s);
  }
}
