/**
  The three Python string operations the scripts rely on: `sep.join(parts)`,
  `s.split(sep)` with a non-empty separator, and `s.replace(c, text)` with a
  one-character pattern.
*/
module Strings {

  /** `sep.join(parts)`: the parts with `sep` between neighbours and at neither end. */
  function Join(parts: seq<string>, sep: string): string
    decreases |parts|
  {
    if |parts| == 0 then ""
    else if |parts| == 1 then parts[0]
    else parts[0] + sep + Join(parts[1..], sep)
  }

  /**
    `s.split(sep)` for a non-empty `sep`: the pieces between the
    non-overlapping occurrences of `sep`, found left to right. There is
    always at least one piece, and empty pieces are kept.
  */
  function Split(s: string, sep: string): (pieces: seq<string>)
    requires sep != []
    ensures |pieces| >= 1
    decreases |s|
  {
    if |sep| <= |s| && s[..|sep|] == sep then [""] + Split(s[|sep|..], sep)
    else if s == [] then [""]
    else
      var rest := Split(s[1..], sep);
      [[s[0]] + rest[0]] + rest[1..]
  }

  /** `s.replace(target, replacement)` for a single-character `target`. */
  function Replace(s: string, target: char, replacement: string): string
    decreases |s|
  {
    if s == [] then []
    else (if s[0] == target then replacement else [s[0]]) + Replace(s[1..], target, replacement)
  }

  /** No piece holds the first character of `sep`, so no piece can hide an occurrence of `sep`. */
  predicate Separable(parts: seq<string>, sep: string)
    requires sep != []
  {
    forall i, j | 0 <= i < |parts| && 0 <= j < |parts[i]| :: parts[i][j] != sep[0]
  }

  /** Joining a part in front of at least one more adds it and one separator. */
  lemma JoinCons(head: string, parts: seq<string>, sep: string)
    requires |parts| >= 1
    ensures Join([head] + parts, sep) == head + sep + Join(parts, sep)
  {
    assert ([head] + parts)[1..] == parts;
  }

  /** Growing the first part at its front grows the join at its front. */
  lemma JoinGrowFirst(c: char, parts: seq<string>, sep: string)
    requires |parts| >= 1
    ensures Join([[c] + parts[0]] + parts[1..], sep) == [c] + Join(parts, sep)
  {
    var grown := [[c] + parts[0]] + parts[1..];
    if |parts| > 1 {
      assert grown[1..] == parts[1..];
    }
  }

  /** Splitting undoes joining: the pieces of `s`, joined back with `sep`, give `s`. */
  lemma {:induction false} JoinSplit(s: string, sep: string)
    requires sep != []
    ensures Join(Split(s, sep), sep) == s
    decreases |s|
  {
    if |sep| <= |s| && s[..|sep|] == sep {
      var t := s[|sep|..];
      assert Split(s, sep) == [""] + Split(t, sep);
      JoinSplit(t, sep);
      JoinCons("", Split(t, sep), sep);
      assert s == sep + t;
    } else if s == [] {
    } else {
      var rest := Split(s[1..], sep);
      assert Split(s, sep) == [[s[0]] + rest[0]] + rest[1..];
      JoinSplit(s[1..], sep);
      JoinGrowFirst(s[0], rest, sep);
      assert s == [s[0]] + s[1..];
    }
  }

  lemma {:induction false} SplitUnbroken(p: string, sep: string)
    requires sep != []
    requires forall j | 0 <= j < |p| :: p[j] != sep[0]
    ensures Split(p, sep) == [p]
    decreases |p|
  {
    if p != [] {
      assert |sep| <= |p| ==> p[..|sep|][0] == p[0];
      SplitUnbroken(p[1..], sep);
      assert [p[0]] + p[1..] == p;
    }
  }

  lemma {:induction false} SplitAfterPiece(p: string, sep: string, rest: string)
    requires sep != []
    requires forall j | 0 <= j < |p| :: p[j] != sep[0]
    ensures Split(p + sep + rest, sep) == [p] + Split(rest, sep)
    decreases |p|
  {
    var s := p + sep + rest;
    if p == [] {
      assert s == sep + rest;
      assert s[..|sep|] == sep && s[|sep|..] == rest;
    } else {
      assert s[0] == p[0] != sep[0];
      assert s[..|sep|] != sep by { assert |sep| <= |s| ==> s[..|sep|][0] == s[0]; }
      assert s[1..] == p[1..] + sep + rest;
      SplitAfterPiece(p[1..], sep, rest);
      assert [p[0]] + p[1..] == p;
    }
  }

  /** Joining undoes splitting, when no part can be mistaken for a separator. */
  lemma {:induction false} SplitJoin(parts: seq<string>, sep: string)
    requires sep != [] && |parts| >= 1
    requires Separable(parts, sep)
    ensures Split(Join(parts, sep), sep) == parts
    decreases |parts|
  {
    if |parts| == 1 {
      SplitUnbroken(parts[0], sep);
    } else {
      assert Separable(parts[1..], sep) by {
        forall i, j | 0 <= i < |parts[1..]| && 0 <= j < |parts[1..][i]|
          ensures parts[1..][i][j] != sep[0]
        {
          assert parts[1..][i] == parts[i + 1];
        }
      }
      SplitJoin(parts[1..], sep);
      SplitAfterPiece(parts[0], sep, Join(parts[1..], sep));
      assert parts == [parts[0]] + parts[1..];
    }
  }

  /** Appending a part adds the separator and that part at the end. */
  lemma {:induction false} JoinSnoc(parts: seq<string>, last: string, sep: string)
    requires |parts| >= 1
    ensures Join(parts + [last], sep) == Join(parts, sep) + sep + last
    decreases |parts|
  {
    var all := parts + [last];
    if |parts| == 1 {
      assert all[1..] == [last];
    } else {
      assert all[1..] == parts[1..] + [last];
      JoinSnoc(parts[1..], last, sep);
    }
  }

  /** A join of equally long parts has `|parts|` parts and one separator fewer. */
  lemma {:induction false} JoinLength(parts: seq<string>, sep: string, w: nat)
    requires |parts| >= 1
    requires forall g | 0 <= g < |parts| :: |parts[g]| == w
    ensures |Join(parts, sep)| == |parts| * w + (|parts| - 1) * |sep|
    decreases |parts|
  {
    if |parts| > 1 {
      JoinLength(parts[1..], sep, w);
    }
  }

  /**
    Where part `g` starts in a join of parts of length `w`: `g` strides of
    one part and one separator each, that is `g * (w + |sep|)`.
  */
  function Offset(g: nat, w: nat, sep: string): nat
  {
    if g == 0 then 0 else (w + |sep|) + Offset(g - 1, w, sep)
  }

  lemma {:induction false} OffsetIsProduct(g: nat, w: nat, sep: string)
    ensures Offset(g, w, sep) == g * (w + |sep|)
  {
    if g > 0 {
      OffsetIsProduct(g - 1, w, sep);
      assert g * (w + |sep|) == (w + |sep|) + (g - 1) * (w + |sep|);
    }
  }

  /** In a join of parts of length `w`, part `g` and everything after it start at `Offset(g, w, sep)`. */
  lemma {:induction false} JoinSuffix(parts: seq<string>, sep: string, w: nat, g: nat)
    requires g < |parts|
    requires forall k | 0 <= k < |parts| :: |parts[k]| == w
    ensures Offset(g, w, sep) <= |Join(parts, sep)|
    ensures Join(parts, sep)[Offset(g, w, sep)..] == Join(parts[g..], sep)
    decreases g
  {
    if g > 0 {
      var tail := parts[1..];
      var head := parts[0] + sep;
      JoinSuffix(tail, sep, w, g - 1);
      assert tail[g - 1..] == parts[g..];
      var x := Offset(g - 1, w, sep);
      var jt := Join(tail, sep);
      assert Join(parts, sep) == head + jt;
      assert |head| == w + |sep|;
      assert (head + jt)[|head| + x..] == jt[x..];
    }
  }

  /** The join of several parts begins with the first part and a separator. */
  lemma JoinFront(parts: seq<string>, sep: string)
    requires |parts| >= 1
    ensures |parts[0]| <= |Join(parts, sep)|
    ensures Join(parts, sep)[..|parts[0]|] == parts[0]
    ensures |parts| > 1 ==> Join(parts, sep)[..|parts[0]| + |sep|] == parts[0] + sep
  {
    if |parts| > 1 {
      var j := Join(parts, sep);
      assert j == (parts[0] + sep) + Join(parts[1..], sep);
    }
  }

  /** A slice of a suffix is a slice of the whole. */
  lemma SliceOfSuffix(x: string, o: nat, rest: string, n: nat)
    requires o <= |x| && x[o..] == rest && n <= |rest|
    ensures x[o..o + n] == rest[..n]
  {
  }

  /** The back of a slice is a slice. */
  lemma BackOfSlice(x: string, o: nat, m: nat, n: nat)
    requires o <= m <= n <= |x|
    ensures x[m..n] == x[o..n][m - o..]
  {
  }

  /** Part `g` of a join of parts of length `w`, and the separator after it. */
  lemma JoinPartAt(parts: seq<string>, sep: string, w: nat, g: nat)
    requires g < |parts|
    requires forall k | 0 <= k < |parts| :: |parts[k]| == w
    ensures Offset(g, w, sep) + w <= |Join(parts, sep)|
    ensures Join(parts, sep)[Offset(g, w, sep)..Offset(g, w, sep) + w] == parts[g]
    ensures g < |parts| - 1 ==>
      Offset(g, w, sep) + w + |sep| <= |Join(parts, sep)|
      && Join(parts, sep)[Offset(g, w, sep) + w..Offset(g, w, sep) + w + |sep|] == sep
  {
    var j := Join(parts, sep);
    var o := Offset(g, w, sep);
    var tail := parts[g..];
    var rest := Join(tail, sep);
    JoinSuffix(parts, sep, w, g);
    JoinFront(tail, sep);
    assert tail[0] == parts[g];
    SliceOfSuffix(j, o, rest, w);
    if g < |parts| - 1 {
      assert |tail| > 1;
      SliceOfSuffix(j, o, rest, w + |sep|);
      BackOfSlice(j, o, o + w, o + w + |sep|);
      assert (parts[g] + sep)[w..] == sep;
    }
  }

  /** Character `i` of part `g` of a join of parts of length `w`. */
  lemma JoinCharAt(parts: seq<string>, sep: string, w: nat, g: nat, i: nat)
    requires g < |parts| && i < w
    requires forall k | 0 <= k < |parts| :: |parts[k]| == w
    ensures Offset(g, w, sep) + i < |Join(parts, sep)|
    ensures Join(parts, sep)[Offset(g, w, sep) + i] == parts[g][i]
  {
    JoinPartAt(parts, sep, w, g);
    var o := Offset(g, w, sep);
    assert Join(parts, sep)[o + i] == Join(parts, sep)[o..o + w][i];
  }

  /** Replacing distributes over concatenation. */
  lemma {:induction false} ReplaceAppend(a: string, b: string, target: char, replacement: string)
    ensures Replace(a + b, target, replacement) == Replace(a, target, replacement) + Replace(b, target, replacement)
    decreases |a|
  {
    if a != [] {
      assert (a + b)[1..] == a[1..] + b;
      ReplaceAppend(a[1..], b, target, replacement);
    } else {
      assert a + b == b;
    }
  }

  /** A string without the target character is left as it is. */
  lemma {:induction false} ReplaceAbsent(s: string, target: char, replacement: string)
    requires forall i | 0 <= i < |s| :: s[i] != target
    ensures Replace(s, target, replacement) == s
    decreases |s|
  {
    if s != [] {
      ReplaceAbsent(s[1..], target, replacement);
      assert [s[0]] + s[1..] == s;
    }
  }

  /** Replacing a character by itself changes nothing. */
  lemma {:induction false} ReplaceBySelf(s: string, c: char)
    ensures Replace(s, c, [c]) == s
    decreases |s|
  {
    if s != [] {
      ReplaceBySelf(s[1..], c);
      assert [s[0]] + s[1..] == s;
    }
  }
}
