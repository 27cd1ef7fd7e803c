/** Substring search, JavaScript's `String.prototype.split` with a non-empty
    separator, `Array.prototype.join`, and the "drop empty parts" filter. */
module Text {

  /** `d` occurs in `s` starting at index `i`. */
  predicate OccursAt(s: string, d: string, i: nat) {
    i + |d| <= |s| && s[i..i + |d|] == d
  }

  /** `d` occurs somewhere in `s`. */
  predicate Contains(s: string, d: string) {
    exists i: nat | i <= |s| :: OccursAt(s, d, i)
  }

  /** `s.split(d)` for a non-empty separator: scanning left to right, every
      non-overlapping occurrence of `d` ends the current part. The result always
      has at least one part, and its first part is a prefix of `s`. */
  function Split(s: string, d: string): (parts: seq<string>)
    requires |d| > 0
    ensures |parts| >= 1
    ensures parts[0] <= s
    decreases |s|
  {
    if |d| <= |s| && s[..|d|] == d then
      [""] + Split(s[|d|..], d)
    else if |s| == 0 then
      [""]
    else
      var rest := Split(s[1..], d);
      [[s[0]] + rest[0]] + rest[1..]
  }

  /** `parts.join(d)`; the join of no parts is the empty string. */
  function Join(parts: seq<string>, d: string): string {
    if |parts| == 0 then ""
    else if |parts| == 1 then parts[0]
    else parts[0] + d + Join(parts[1..], d)
  }

  /** `parts.filter(part => part.length > 0)`: keeps the non-empty parts in order. */
  function NonEmpty(parts: seq<string>): (r: seq<string>)
    ensures |r| <= |parts|
    ensures forall i :: 0 <= i < |r| ==> |r[i]| > 0
  {
    if |parts| == 0 then []
    else if |parts[0]| == 0 then NonEmpty(parts[1..])
    else [parts[0]] + NonEmpty(parts[1..])
  }

  /** The filter keeps exactly the non-empty parts, and changes nothing when no
      part is empty. */
  lemma NonEmptyKeeps(parts: seq<string>)
    ensures forall x :: x in NonEmpty(parts) <==> x in parts && |x| > 0
    ensures (forall i :: 0 <= i < |parts| ==> |parts[i]| > 0) <==> NonEmpty(parts) == parts
  {
    NonEmptyMembers(parts);
    NonEmptyIdentity(parts);
  }

  lemma {:induction false} NonEmptyMembers(parts: seq<string>)
    ensures forall x :: x in NonEmpty(parts) <==> x in parts && |x| > 0
  {
    if |parts| > 0 {
      NonEmptyMembers(parts[1..]);
      assert parts == [parts[0]] + parts[1..];
    }
  }

  lemma {:induction false} NonEmptyIdentity(parts: seq<string>)
    ensures (forall i :: 0 <= i < |parts| ==> |parts[i]| > 0) <==> NonEmpty(parts) == parts
  {
    if |parts| > 0 {
      var tail := parts[1..];
      NonEmptyIdentity(tail);
      if |parts[0]| == 0 {
        assert |NonEmpty(parts)| < |parts|;
      } else {
        assert NonEmpty(parts) == [parts[0]] + NonEmpty(tail);
        assert parts == [parts[0]] + tail;
        if NonEmpty(parts) == parts {
          assert NonEmpty(tail) == NonEmpty(parts)[1..] == tail;
          assert forall i :: 1 <= i < |parts| ==> parts[i] == tail[i - 1];
        } else {
          assert NonEmpty(tail) != tail;
        }
      }
    }
  }

  /** Filtering distributes over concatenation. */
  lemma {:induction false} NonEmptyAppend(a: seq<string>, b: seq<string>)
    ensures NonEmpty(a + b) == NonEmpty(a) + NonEmpty(b)
    decreases |a|
  {
    if |a| > 0 {
      NonEmptyAppend(a[1..], b);
      var ab := a + b;
      assert ab[0] == a[0] && ab[1..] == a[1..] + b;
      if |a[0]| == 0 {
        assert NonEmpty(ab) == NonEmpty(a[1..] + b);
        assert NonEmpty(a) == NonEmpty(a[1..]);
      } else {
        assert NonEmpty(ab) == [a[0]] + NonEmpty(a[1..] + b);
        assert NonEmpty(a) == [a[0]] + NonEmpty(a[1..]);
      }
    } else {
      assert a + b == b;
    }
  }

  /** Parts that can be joined with `d` and split back unchanged: no part
      contains `d`, and no part but the last, followed by all but the last
      character of `d`, produces an occurrence that straddles the seam. */
  predicate Separable(parts: seq<string>, d: string)
    requires |d| > 0
  {
    && (forall i :: 0 <= i < |parts| ==> !Contains(parts[i], d))
    && (forall i :: 0 <= i < |parts| - 1 ==> !Contains(parts[i] + d[..|d| - 1], d))
  }

  lemma ContainsShift(s: string, d: string, k: nat)
    requires 1 <= k <= |s|
    requires Contains(s[k..], d)
    ensures Contains(s, d)
  {
    var i: nat :| i <= |s[k..]| && OccursAt(s[k..], d, i);
    assert s[i + k..i + k + |d|] == s[k..][i..i + |d|];
    assert OccursAt(s, d, i + k);
  }

  lemma OccursShift(s: string, d: string, k: nat)
    requires k >= 1 && OccursAt(s, d, k)
    ensures OccursAt(s[1..], d, k - 1)
  {
    var t := s[1..];
    assert |t| == |s| - 1;
    forall j | 0 <= j < |d|
      ensures t[k - 1..k - 1 + |d|][j] == d[j]
    {
      assert t[k - 1 + j] == s[k + j] == s[k..k + |d|][j];
    }
    assert t[k - 1..k - 1 + |d|] == d;
  }

  /** Prepending a character to the first part prepends it to the join. */
  lemma JoinPrependFirst(c: char, parts: seq<string>, d: string)
    requires |parts| >= 1
    ensures Join([[c] + parts[0]] + parts[1..], d) == [c] + Join(parts, d)
  {
    var q := [[c] + parts[0]] + parts[1..];
    if |parts| > 1 {
      assert q[1..] == parts[1..];
    }
  }

  /** Splitting then joining gives back the original string. */
  lemma {:induction false} JoinSplit(s: string, d: string)
    requires |d| > 0
    ensures Join(Split(s, d), d) == s
    decreases |s|
  {
    if |d| <= |s| && s[..|d|] == d {
      var t := s[|d|..];
      JoinSplit(t, d);
      var rest := Split(t, d);
      assert Split(s, d) == [""] + rest;
      assert Join([""] + rest, d) == s by {
        JoinPrependEmpty(rest, d);
        assert s == d + t;
      }
    } else if |s| > 0 {
      var t := s[1..];
      JoinSplit(t, d);
      var rest := Split(t, d);
      assert Split(s, d) == [[s[0]] + rest[0]] + rest[1..];
      assert Join([[s[0]] + rest[0]] + rest[1..], d) == s by {
        JoinPrependFirst(s[0], rest, d);
        assert s == [s[0]] + t;
      }
    }
  }

  /** An empty first part contributes only its separator to the join. */
  lemma JoinPrependEmpty(parts: seq<string>, d: string)
    requires |parts| >= 1
    ensures Join([""] + parts, d) == d + Join(parts, d)
  {
    assert ([""] + parts)[1..] == parts;
  }

  /** Putting a character in front of a string free of the separator keeps it
      free, as long as the result is a prefix of a string that does not start
      with the separator. */
  lemma ConsAvoids(c: char, r: string, d: string, t: string)
    requires |d| > 0 && !Contains(r, d) && [c] + r <= t
    requires !(|d| <= |t| && t[..|d|] == d)
    ensures !Contains([c] + r, d)
  {
    var first := [c] + r;
    assert first[1..] == r;
    forall k: nat | k <= |first|
      ensures !OccursAt(first, d, k)
    {
      if k == 0 {
        if |d| <= |first| {
          assert first[..|d|] == t[..|d|];
        }
      } else if OccursAt(first, d, k) {
        OccursShift(first, d, k);
      }
    }
  }

  /** No part produced by Split contains the separator. */
  lemma {:induction false} SplitPartsAvoid(s: string, d: string)
    requires |d| > 0
    ensures forall i :: 0 <= i < |Split(s, d)| ==> !Contains(Split(s, d)[i], d)
    decreases |s|
  {
    var parts := Split(s, d);
    assert !Contains("", d);
    if |d| <= |s| && s[..|d|] == d {
      SplitPartsAvoid(s[|d|..], d);
      var rest := Split(s[|d|..], d);
      assert parts == [""] + rest;
      assert forall i :: 1 <= i < |parts| ==> parts[i] == rest[i - 1];
    } else if |s| > 0 {
      SplitPartsAvoid(s[1..], d);
      var rest := Split(s[1..], d);
      assert rest[0] <= s[1..];
      ConsAvoids(s[0], rest[0], d, s);
      assert parts == [[s[0]] + rest[0]] + rest[1..];
      assert forall i :: 1 <= i < |parts| ==> parts[i] == rest[i];
    }
  }

  /** A string splits into exactly one part precisely when it does not contain
      the separator, and that part is then the whole string. */
  lemma {:induction false} SplitSingle(s: string, d: string)
    requires |d| > 0
    ensures |Split(s, d)| == 1 <==> !Contains(s, d)
    ensures !Contains(s, d) ==> Split(s, d) == [s]
    decreases |s|
  {
    if !Contains(s, d) {
      assert !OccursAt(s, d, 0);
      if |s| > 0 {
        if Contains(s[1..], d) {
          ContainsShift(s, d, 1);
        }
        SplitSingle(s[1..], d);
        assert [s[0]] + s[1..] == s;
      }
    } else if |Split(s, d)| == 1 {
      JoinSplit(s, d);
      SplitPartsAvoid(s, d);
      assert false;
    }
  }

  /** A non-empty `p` with a clean seam keeps `p + d + r` from starting with
      `d`, and its tail `p[1..]` has a clean seam too. */
  lemma CleanSeamStep(p: string, d: string, r: string)
    requires |d| > 0 && |p| > 0
    requires !Contains(p + d[..|d| - 1], d)
    ensures var s := p + d + r; !(|d| <= |s| && s[..|d|] == d)
    ensures !Contains(p[1..] + d[..|d| - 1], d)
  {
    var s := p + d + r;
    var w := p + d[..|d| - 1];
    assert w[..|d|] == s[..|d|];
    assert !OccursAt(w, d, 0);
    if Contains(p[1..] + d[..|d| - 1], d) {
      assert p[1..] + d[..|d| - 1] == w[1..];
      ContainsShift(w, d, 1);
    }
  }

  /** Splitting `p + d + r` cuts at the seam when `p` cannot produce an earlier
      occurrence of `d`. */
  lemma {:induction false} SplitAtSeam(p: string, d: string, r: string)
    requires |d| > 0
    requires !Contains(p + d[..|d| - 1], d)
    ensures Split(p + d + r, d) == [p] + Split(r, d)
    decreases |p|
  {
    var s := p + d + r;
    if |p| == 0 {
      assert s == d + r;
      SplitAtFront(d, r);
    } else {
      CleanSeamStep(p, d, r);
      SplitAtSeam(p[1..], d, r);
      assert s[1..] == p[1..] + d + r;
      SplitNoFront(s, d, p[1..], Split(r, d));
      assert [s[0]] + p[1..] == p;
    }
  }

  /** A text that starts with the separator splits off an empty first part. */
  lemma SplitAtFront(d: string, r: string)
    requires |d| > 0
    ensures Split(d + r, d) == [""] + Split(r, d)
  {
    var s := d + r;
    assert s[..|d|] == d && s[|d|..] == r;
  }

  /** A non-empty text that does not start with the separator adds its first
      character to the first part of the rest. */
  lemma SplitNoFront(s: string, d: string, q: string, tail: seq<string>)
    requires |d| > 0 && |s| > 0
    requires !(|d| <= |s| && s[..|d|] == d)
    requires Split(s[1..], d) == [q] + tail
    ensures Split(s, d) == [[s[0]] + q] + tail
  {
    var rest := Split(s[1..], d);
    assert rest[0] == q && rest[1..] == tail;
  }

  /** Joining separable parts and splitting again gives the parts back. */
  lemma {:induction false} SplitJoin(parts: seq<string>, d: string)
    requires |d| > 0
    requires |parts| >= 1
    requires Separable(parts, d)
    ensures Split(Join(parts, d), d) == parts
    decreases |parts|
  {
    if |parts| == 1 {
      SplitSingle(parts[0], d);
    } else {
      var tail := parts[1..];
      assert Separable(tail, d) by {
        forall i | 0 <= i < |tail| ensures !Contains(tail[i], d) {
          assert tail[i] == parts[i + 1];
        }
        forall i | 0 <= i < |tail| - 1 ensures !Contains(tail[i] + d[..|d| - 1], d) {
          assert tail[i] == parts[i + 1];
        }
      }
      SplitJoin(tail, d);
      SplitAtSeam(parts[0], d, Join(tail, d));
      assert parts == [parts[0]] + tail;
    }
  }
}
