/** `s.replace(/p/g, '')` for a pattern `p` with no regular-expression
    metacharacters: a left-to-right scan that deletes every non-overlapping
    occurrence of `p`, always taking the leftmost one first. */
module ReplaceAll {

  /** `t` occurs in `s` starting at index `k`. */
  predicate OccursAt(s: seq<char>, t: seq<char>, k: int)
  {
    0 <= k && k + |t| <= |s| && s[k..k + |t|] == t
  }

  /** `t` occurs nowhere in `s`. */
  predicate Absent(s: seq<char>, t: seq<char>)
  {
    forall k :: 0 <= k <= |s| - |t| ==> !OccursAt(s, t, k)
  }

  /** The string left after a global replace of `p` by the empty string: it
      only ever deletes characters. An empty pattern matches only empty
      strings, so nothing is removed. */
  function RemoveAll(s: seq<char>, p: seq<char>): (r: seq<char>)
    ensures |r| <= |s|
    decreases |s|
  {
    if p == [] || |s| < |p| then s
    else if s[..|p|] == p then RemoveAll(s[|p|..], p)
    else [s[0]] + RemoveAll(s[1..], p)
  }

  /** The pieces of `s` that the scan keeps, in order: the text before the
      first removed occurrence, between consecutive ones, and after the last. */
  function Pieces(s: seq<char>, p: seq<char>): (ps: seq<seq<char>>)
    ensures |ps| >= 1
    decreases |s|
  {
    if p == [] || |s| < |p| then [s]
    else if s[..|p|] == p then [[]] + Pieces(s[|p|..], p)
    else
      var rest := Pieces(s[1..], p);
      [[s[0]] + rest[0]] + rest[1..]
  }

  /** The pieces glued back together with `p` between neighbours. */
  function Join(ps: seq<seq<char>>, p: seq<char>): seq<char>
    requires |ps| >= 1
  {
    if |ps| == 1 then ps[0] else ps[0] + p + Join(ps[1..], p)
  }

  /** The pieces glued together with nothing between them. */
  function Concat(ps: seq<seq<char>>): seq<char>
  {
    if ps == [] then [] else ps[0] + Concat(ps[1..])
  }

  /** The first piece is where the joined string starts. */
  lemma JoinStartsWithHead(ps: seq<seq<char>>, p: seq<char>)
    requires |ps| >= 1
    ensures |ps[0]| <= |Join(ps, p)| && Join(ps, p)[..|ps[0]|] == ps[0]
  {
  }

  /** Prepending a character to the first piece prepends it to the join. */
  lemma JoinConsHead(c: char, ps: seq<seq<char>>, p: seq<char>)
    requires |ps| >= 1
    ensures Join([[c] + ps[0]] + ps[1..], p) == [c] + Join(ps, p)
  {
    var qs := [[c] + ps[0]] + ps[1..];
    assert qs[1..] == ps[1..];
  }

  /** Prepending a character to the first piece prepends it to the concatenation. */
  lemma ConcatConsHead(c: char, ps: seq<seq<char>>)
    requires |ps| >= 1
    ensures Concat([[c] + ps[0]] + ps[1..]) == [c] + Concat(ps)
  {
    var qs := [[c] + ps[0]] + ps[1..];
    assert qs[1..] == ps[1..];
  }

  /** Removal is exactly a split at the removed occurrences: re-inserting `p`
      between the kept pieces restores the input, concatenating them gives
      the result, and no kept piece contains `p`. */
  lemma {:induction false} RemoveAllSplits(s: seq<char>, p: seq<char>)
    ensures Join(Pieces(s, p), p) == s
    ensures Concat(Pieces(s, p)) == RemoveAll(s, p)
    ensures p != [] ==> forall i :: 0 <= i < |Pieces(s, p)| ==> Absent(Pieces(s, p)[i], p)
    decreases |s|
  {
    var ps := Pieces(s, p);
    if p == [] || |s| < |p| {
      assert ps == [s];
      if p != [] {
        forall k ensures !OccursAt(s, p, k) { }
      }
    } else if s[..|p|] == p {
      var tail := s[|p|..];
      RemoveAllSplits(tail, p);
      assert ps == [[]] + Pieces(tail, p);
      assert ps[1..] == Pieces(tail, p);
      assert Join(ps, p) == [] + p + Join(Pieces(tail, p), p);
      assert s == p + tail;
      assert Concat(ps) == [] + Concat(Pieces(tail, p));
      forall i | 0 <= i < |ps| ensures Absent(ps[i], p) {
        if i == 0 {
          forall k ensures !OccursAt(ps[0], p, k) { }
        } else {
          assert ps[i] == Pieces(tail, p)[i - 1];
        }
      }
    } else {
      var tail := s[1..];
      var rest := Pieces(tail, p);
      RemoveAllSplits(tail, p);
      JoinConsHead(s[0], rest, p);
      ConcatConsHead(s[0], rest);
      assert s == [s[0]] + tail;
      var head := [s[0]] + rest[0];
      forall i | 0 <= i < |ps| ensures Absent(ps[i], p) {
        if i == 0 {
          forall k | 0 <= k <= |head| - |p| ensures !OccursAt(head, p, k) {
            if k == 0 {
              JoinStartsWithHead(ps, p);
              assert head[..|p|] == s[..|p|];
            } else {
              assert head[k..k + |p|] == rest[0][k - 1..k - 1 + |p|];
              assert !OccursAt(rest[0], p, k - 1);
            }
          }
        } else {
          assert ps[i] == rest[i];
        }
      }
    }
  }

  /** With at least two pieces, the joined string starts with the first piece
      followed by one copy of `p`. */
  lemma JoinStartsWithHeadAndPattern(ps: seq<seq<char>>, p: seq<char>)
    requires |ps| >= 2
    ensures |ps[0] + p| <= |Join(ps, p)| && Join(ps, p)[..|ps[0] + p|] == ps[0] + p
  {
  }

  /** The scan takes the leftmost occurrence: no occurrence of `p` starts
      inside a kept piece that is followed by a removed one. Together with
      `RemoveAllSplits` this fixes the pieces, and so the result, uniquely
      (`PiecesUnique`). */
  lemma {:induction false} RemoveAllLeftmost(s: seq<char>, p: seq<char>)
    ensures p != [] ==> forall i :: 0 <= i < |Pieces(s, p)| - 1 ==> Absent(Pieces(s, p)[i] + p[..|p| - 1], p)
    decreases |s|
  {
    var ps := Pieces(s, p);
    if p == [] || |s| < |p| {
    } else if s[..|p|] == p {
      var tail := s[|p|..];
      RemoveAllLeftmost(tail, p);
      assert ps == [[]] + Pieces(tail, p);
      forall i | 0 <= i < |ps| - 1 ensures Absent(ps[i] + p[..|p| - 1], p) {
        if i == 0 {
          var w := ps[0] + p[..|p| - 1];
          forall k ensures !OccursAt(w, p, k) { }
        } else {
          assert ps[i] == Pieces(tail, p)[i - 1];
        }
      }
    } else {
      var tail := s[1..];
      var rest := Pieces(tail, p);
      RemoveAllLeftmost(tail, p);
      assert ps == [[s[0]] + rest[0]] + rest[1..];
      var q := p[..|p| - 1];
      forall i | 0 <= i < |ps| - 1 ensures Absent(ps[i] + q, p) {
        if i == 0 {
          var w := ps[0] + q;
          forall k | 0 <= k <= |w| - |p| ensures !OccursAt(w, p, k) {
            if k == 0 {
              RemoveAllSplits(s, p);
              JoinStartsWithHeadAndPattern(ps, p);
              assert w[..|p|] == (ps[0] + p)[..|p|];
              assert w[..|p|] == s[..|p|];
            } else {
              assert w[k..k + |p|] == (rest[0] + q)[k - 1..k - 1 + |p|];
              assert !OccursAt(rest[0] + q, p, k - 1);
            }
          }
        } else {
          assert ps[i] == rest[i];
        }
      }
    }
  }

  /** Dropping the first character of a string keeps `p` absent. */
  lemma AbsentInTail(x: seq<char>, p: seq<char>)
    requires x != [] && Absent(x, p)
    ensures Absent(x[1..], p)
  {
    forall k | 0 <= k <= |x[1..]| - |p| ensures !OccursAt(x[1..], p, k) {
      assert x[1..][k..k + |p|] == x[k + 1..k + 1 + |p|];
      assert !OccursAt(x, p, k + 1);
    }
  }

  /** Any split of `s` around occurrences of a non-empty `p` with the facts of
      `RemoveAllSplits` and `RemoveAllLeftmost` is the scan's own split, so
      those facts determine `RemoveAll(s, p)` completely. */
  lemma {:induction false} PiecesUnique(s: seq<char>, p: seq<char>, ps: seq<seq<char>>)
    requires p != [] && |ps| >= 1 && Join(ps, p) == s
    requires forall i :: 0 <= i < |ps| ==> Absent(ps[i], p)
    requires forall i :: 0 <= i < |ps| - 1 ==> Absent(ps[i] + p[..|p| - 1], p)
    ensures ps == Pieces(s, p)
    decreases |s|
  {
    var q := p[..|p| - 1];
    if |ps| >= 2 {
      JoinStartsWithHeadAndPattern(ps, p);
    }
    if |s| < |p| {
      assert |ps| == 1;
    } else if ps[0] == [] && |ps| >= 2 {
      var tail := s[|p|..];
      assert s[..|p|] == p;
      assert Join(ps, p) == ps[0] + p + Join(ps[1..], p);
      assert tail == Join(ps[1..], p);
      forall i | 0 <= i < |ps[1..]| ensures Absent(ps[1..][i], p) {
        assert ps[1..][i] == ps[i + 1];
      }
      forall i | 0 <= i < |ps[1..]| - 1 ensures Absent(ps[1..][i] + q, p) {
        assert ps[1..][i] == ps[i + 1];
      }
      PiecesUnique(tail, p, ps[1..]);
      assert ps == [[]] + ps[1..];
    } else {
      assert ps[0] != [] by {
        if |ps| == 1 { assert s == ps[0]; }
      }
      var w := if |ps| == 1 then ps[0] else ps[0] + q;
      assert Absent(w, p);
      assert w[..|p|] == s[..|p|];
      assert !OccursAt(w, p, 0);
      var c := ps[0][0];
      var first := ps[0][1..];
      var qs := [first] + ps[1..];
      assert [c] + qs[0] == ps[0];
      assert qs[1..] == ps[1..];
      assert ps == [[c] + qs[0]] + qs[1..];
      JoinConsHead(c, qs, p);
      assert s[1..] == Join(qs, p);
      AbsentInTail(ps[0], p);
      forall i | 0 <= i < |qs| ensures Absent(qs[i], p) {
        if i > 0 { assert qs[i] == ps[i]; }
      }
      forall i | 0 <= i < |qs| - 1 ensures Absent(qs[i] + q, p) {
        if i == 0 {
          AbsentInTail(ps[0] + q, p);
          assert (ps[0] + q)[1..] == first + q;
        } else {
          assert qs[i] == ps[i];
        }
      }
      PiecesUnique(s[1..], p, qs);
    }
  }

  /** Where `p` does not occur, removing it changes nothing. */
  lemma {:induction false} RemoveAllAbsent(s: seq<char>, p: seq<char>)
    requires Absent(s, p)
    ensures RemoveAll(s, p) == s
    decreases |s|
  {
    if p == [] || |s| < |p| {
    } else {
      assert !OccursAt(s, p, 0);
      forall k ensures !OccursAt(s[1..], p, k) {
        if OccursAt(s[1..], p, k) {
          assert s[1..][k..k + |p|] == s[k + 1..k + 1 + |p|];
          assert OccursAt(s, p, k + 1);
        }
      }
      RemoveAllAbsent(s[1..], p);
      assert s == [s[0]] + s[1..];
    }
  }
}
