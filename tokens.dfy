/**
 * `str::split` with a single-character pattern followed by `collect()`:
 * the pieces between separators, in order, empty pieces included.
 */
module Tokens {
  import opened Bytes

  function Split(s: seq<u8>, sep: u8): (r: seq<seq<u8>>)
    ensures |r| >= 1
    ensures Count(s, sep) == 0 ==> r == [s]
    decreases |s|
  {
    if s == [] then [[]]
    else
      var rest := Split(s[1..], sep);
      assert s == [s[0]] + s[1..];
      if s[0] == sep then [[]] + rest
      else [[s[0]] + rest[0]] + rest[1..]
  }

  /** The inverse of Split: the pieces glued back with one separator between neighbours. */
  function Join(parts: seq<seq<u8>>, sep: u8): seq<u8>
    decreases |parts|
  {
    if parts == [] then []
    else if |parts| == 1 then parts[0]
    else parts[0] + [sep] + Join(parts[1..], sep)
  }

  /** Number of occurrences of `b` in `s`. */
  function Count(s: seq<u8>, b: u8): nat
    decreases |s|
  {
    if s == [] then 0
    else (if s[0] == b then 1 else 0) + Count(s[1..], b)
  }

  predicate Free(piece: seq<u8>, sep: u8) {
    forall k :: 0 <= k < |piece| ==> piece[k] != sep
  }

  /** Gluing the pieces back gives the input: Split loses nothing. */
  lemma {:induction false} JoinSplit(s: seq<u8>, sep: u8)
    ensures Join(Split(s, sep), sep) == s
    decreases |s|
  {
    if s != [] {
      var t := s[1..];
      var rest := Split(t, sep);
      JoinSplit(t, sep);
      assert s == [s[0]] + t;
      if s[0] == sep {
        SplitSep(t, sep);
        assert ([[]] + rest)[1..] == rest;
      } else {
        SplitOther(s[0], t, sep);
        JoinHead(Split(s, sep), sep);
        assert [rest[0]] + rest[1..] == rest;
      }
    }
  }

  /** No piece contains the separator. */
  lemma {:induction false} SplitPiecesFree(s: seq<u8>, sep: u8)
    ensures forall i :: 0 <= i < |Split(s, sep)| ==> Free(Split(s, sep)[i], sep)
    decreases |s|
  {
    if s != [] {
      SplitPiecesFree(s[1..], sep);
    }
  }

  /** There is one more piece than there are separators. */
  lemma {:induction false} SplitCount(s: seq<u8>, sep: u8)
    ensures |Split(s, sep)| == Count(s, sep) + 1
    decreases |s|
  {
    if s != [] {
      SplitCount(s[1..], sep);
    }
  }

  /** Split undoes Join when no piece contains the separator. */
  lemma {:induction false} SplitJoin(parts: seq<seq<u8>>, sep: u8)
    requires |parts| >= 1
    requires forall i :: 0 <= i < |parts| ==> Free(parts[i], sep)
    ensures Split(Join(parts, sep), sep) == parts
    decreases |parts|, |parts[0]|
  {
    var p := parts[0];
    if p == [] {
      if |parts| > 1 {
        SplitJoin(parts[1..], sep);
        JoinEmptyHead(parts, sep);
        SplitSep(Join(parts[1..], sep), sep);
        assert parts == [[]] + parts[1..];
      }
    } else {
      var tail := [p[1..]] + parts[1..];
      assert Free(p, sep);
      assert forall i :: 0 <= i < |tail| ==> Free(tail[i], sep) by {
        forall i | 0 <= i < |tail| ensures Free(tail[i], sep) {
          if i > 0 { assert tail[i] == parts[i]; }
        }
      }
      SplitJoin(tail, sep);
      JoinHead(parts, sep);
      SplitOther(p[0], Join(tail, sep), sep);
      assert [p[0]] + p[1..] == p;
      assert tail[1..] == parts[1..];
    }
  }

  lemma JoinEmptyHead(parts: seq<seq<u8>>, sep: u8)
    requires |parts| > 1 && parts[0] == []
    ensures Join(parts, sep) == [sep] + Join(parts[1..], sep)
  {
  }

  lemma JoinHead(parts: seq<seq<u8>>, sep: u8)
    requires |parts| >= 1 && parts[0] != []
    ensures Join(parts, sep) == [parts[0][0]] + Join([parts[0][1..]] + parts[1..], sep)
  {
    var p, tail := parts[0], [parts[0][1..]] + parts[1..];
    assert tail[0] == p[1..] && tail[1..] == parts[1..];
    if |parts| > 1 {
      assert Join(tail, sep) == p[1..] + [sep] + Join(parts[1..], sep);
    }
  }

  lemma SplitSep(t: seq<u8>, sep: u8)
    ensures Split([sep] + t, sep) == [[]] + Split(t, sep)
  {
    assert ([sep] + t)[1..] == t;
  }

  lemma SplitOther(x: u8, t: seq<u8>, sep: u8)
    requires x != sep
    ensures Split([x] + t, sep) == [[x] + Split(t, sep)[0]] + Split(t, sep)[1..]
  {
    assert ([x] + t)[1..] == t;
  }
}
