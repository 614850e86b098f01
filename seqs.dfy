/** The one optional-value type the model needs. */
module Wrappers {
  datatype Option<+T> = None | Some(value: T)
}

/**
 * Searching, splitting and replacing inside sequences, with the semantics of
 * the Java library calls the server relies on: the hand-written `indexOf`,
 * `String.split` with a literal delimiter and `String.replace`.
 */
module Seqs {

  /** `t` occurs in `s` starting at index `k`. */
  predicate MatchesAt<T(==)>(s: seq<T>, t: seq<T>, k: int) {
    0 <= k && k + |t| <= |s| && s[k..k + |t|] == t
  }

  /** Java's `startsWith`. */
  predicate StartsWith<T(==)>(s: seq<T>, prefix: seq<T>) {
    |prefix| <= |s| && s[..|prefix|] == prefix
  }

  /**
   * The smallest `i` with `start <= i <= max - |t|` at which `t` occurs in
   * `s`, or -1 when there is none. Nothing at or beyond `max` is looked at.
   */
  function FirstMatch<T(==)>(s: seq<T>, t: seq<T>, start: int, max: int): (r: int)
    requires 0 <= start && max <= |s|
    ensures r == -1 || (start <= r <= max - |t| && MatchesAt(s, t, r))
    ensures r == -1 ==> forall k :: start <= k <= max - |t| ==> !MatchesAt(s, t, k)
    ensures r != -1 ==> forall k :: start <= k < r ==> !MatchesAt(s, t, k)
    decreases max - start
  {
    if start > max - |t| then -1
    else if s[start..start + |t|] == t then start
    else FirstMatch(s, t, start + 1, max)
  }

  /** A match at `k` with none before it is what FirstMatch finds. */
  lemma FirstMatchIs<T>(s: seq<T>, t: seq<T>, start: int, max: int, k: int)
    requires 0 <= start <= k && max <= |s| && k + |t| <= max
    requires MatchesAt(s, t, k)
    requires forall j :: start <= j < k ==> !MatchesAt(s, t, j)
    ensures FirstMatch(s, t, start, max) == k
  {
  }

  /** FirstMatch looks at nothing at or beyond `max`. */
  lemma {:induction false} FirstMatchPrefix<T>(s: seq<T>, t: seq<T>, start: int, max: int, n: int)
    requires 0 <= start && 0 <= n && max <= n <= |s|
    ensures FirstMatch(s, t, start, max) == FirstMatch(s[..n], t, start, max)
    decreases max - start
  {
    if start <= max - |t| {
      assert s[start..start + |t|] == s[..n][start..start + |t|];
      FirstMatchPrefix(s, t, start + 1, max, n);
    }
  }

  /** A match found before `max` is still the first one when the search runs on to `more`. */
  lemma FirstMatchWiden<T>(s: seq<T>, t: seq<T>, start: int, max: int, more: int)
    requires 0 <= start && max <= more <= |s| && FirstMatch(s, t, start, max) != -1
    ensures FirstMatch(s, t, start, more) == FirstMatch(s, t, start, max)
  {
    var m := FirstMatch(s, t, start, max);
    FirstMatchIs(s, t, start, more, m);
  }

  /** The join begins with the first piece. */
  lemma JoinStartsWithFirst<T>(parts: seq<seq<T>>, d: seq<T>)
    requires |parts| >= 1
    ensures parts[0] <= Join(parts, d)
  {
  }

  /** `parts` glued back together with `d` between neighbours. */
  function Join<T>(parts: seq<seq<T>>, d: seq<T>): seq<T>
    requires |parts| >= 1
  {
    if |parts| == 1 then parts[0] else parts[0] + d + Join(parts[1..], d)
  }

  /**
   * Every piece of `s` between leftmost non-overlapping occurrences of `d`,
   * empty pieces included: the list a Java regex split builds before it
   * drops trailing empty strings.
   */
  function SplitAll<T(==)>(s: seq<T>, d: seq<T>): (r: seq<seq<T>>)
    requires |d| > 0
    ensures |r| >= 1 && r[0] <= s
    decreases |s|
  {
    if |s| < |d| then [s]
    else if s[..|d|] == d then [[]] + SplitAll(s[|d|..], d)
    else
      var rest := SplitAll(s[1..], d);
      [[s[0]] + rest[0]] + rest[1..]
  }

  /** `parts` without its trailing run of empty pieces. */
  function DropTrailingEmpty<T>(parts: seq<seq<T>>): (r: seq<seq<T>>)
    ensures r <= parts
    ensures r == [] || r[|r| - 1] != []
    ensures forall i | |r| <= i < |parts| :: parts[i] == []
  {
    if parts == [] then []
    else if parts[|parts| - 1] == [] then DropTrailingEmpty(parts[..|parts| - 1])
    else parts
  }

  /**
   * Java's `s.split(d)` for a delimiter matched literally, with limit 0: no
   * occurrence gives `[s]` (even for an empty `s`); otherwise every piece,
   * leading empty pieces kept, trailing empty pieces dropped.
   */
  function Split<T(==)>(s: seq<T>, d: seq<T>): (r: seq<seq<T>>)
    requires |d| > 0
    ensures FirstMatch(s, d, 0, |s|) == -1 ==> r == [s]
    ensures FirstMatch(s, d, 0, |s|) != -1 ==> r == [] || r[|r| - 1] != []
    ensures var all := SplitAll(s, d); r <= all && forall i | |r| <= i < |all| :: all[i] == []
  {
    var parts := SplitAll(s, d);
    SplitAllSingle(s, d);
    if |parts| > 1 then DropTrailingEmpty(parts) else parts
  }

  /** `s` splits into more than one piece exactly when `d` occurs in it; otherwise the one piece is `s`. */
  lemma SplitAllSingle<T>(s: seq<T>, d: seq<T>)
    requires |d| > 0
    ensures |SplitAll(s, d)| > 1 <==> FirstMatch(s, d, 0, |s|) != -1
    ensures |SplitAll(s, d)| == 1 ==> SplitAll(s, d) == [s]
  {
    var parts := SplitAll(s, d);
    JoinSplitAll(s, d);
    SplitAllFirstPiece(s, d);
    if |parts| > 1 {
      JoinCons(parts, d);
    }
  }

  /** Java's `s.replace(t, x)`: every leftmost non-overlapping `t` becomes `x`. */
  function Replace<T(==)>(s: seq<T>, t: seq<T>, x: seq<T>): (r: seq<T>)
    requires |t| > 0
    ensures FirstMatch(s, t, 0, |s|) == -1 ==> r == s
    decreases |s|
  {
    if |s| < |t| then s
    else if s[..|t|] == t then x + Replace(s[|t|..], t, x)
    else
      FirstMatchPastHead(s, t);
      [s[0]] + Replace(s[1..], t, x)
  }

  /** Splitting loses nothing: joining the pieces with the delimiter gives `s` back. */
  lemma {:induction false} JoinSplitAll<T>(s: seq<T>, d: seq<T>)
    requires |d| > 0
    ensures Join(SplitAll(s, d), d) == s
    decreases |s|
  {
    if |s| < |d| {
    } else if s[..|d|] == d {
      var rest := SplitAll(s[|d|..], d);
      JoinSplitAll(s[|d|..], d);
      assert SplitAll(s, d) == [[]] + rest;
      assert ([[]] + rest)[1..] == rest;
      assert s == d + s[|d|..];
    } else {
      var rest := SplitAll(s[1..], d);
      var r := [[s[0]] + rest[0]] + rest[1..];
      assert SplitAll(s, d) == r;
      JoinSplitAll(s[1..], d);
      if |rest| == 1 {
        assert Join(r, d) == [s[0]] + rest[0];
      } else {
        assert r[1..] == rest[1..];
        assert Join(r, d) == r[0] + d + Join(rest[1..], d);
        assert Join(rest, d) == rest[0] + d + Join(rest[1..], d);
      }
      assert s == [s[0]] + s[1..];
    }
  }

  /** No piece of a split contains the delimiter. */
  lemma {:induction false} SplitAllPiecesFree<T>(s: seq<T>, d: seq<T>, i: int, k: int)
    requires |d| > 0 && 0 <= i < |SplitAll(s, d)|
    ensures !MatchesAt(SplitAll(s, d)[i], d, k)
    decreases |s|
  {
    if |s| < |d| {
    } else if s[..|d|] == d {
      if i > 0 { SplitAllPiecesFree(s[|d|..], d, i - 1, k); }
    } else if i > 0 {
      SplitAllPiecesFree(s[1..], d, i, k);
    } else if k > 0 {
      SplitAllPiecesFree(s[1..], d, 0, k - 1);
    }
  }

  /** A piece free of the delimiter's first element is not cut. */
  lemma {:induction false} SplitAllPrefix<T>(p: seq<T>, rest: seq<T>, d: seq<T>)
    requires |d| > 0 && d[0] !in p
    ensures SplitAll(p + rest, d) == [p + SplitAll(rest, d)[0]] + SplitAll(rest, d)[1..]
    decreases |p|
  {
    if p == [] {
      var q := SplitAll(rest, d);
      assert p + rest == rest && p + q[0] == q[0];
      assert q == [q[0]] + q[1..];
    } else {
      var s := p + rest;
      assert s[0] == p[0];
      if |s| < |d| {
        assert SplitAll(rest, d) == [rest];
      } else {
        assert s[..|d|][0] == p[0];
        assert s[..|d|] != d;
        assert s[1..] == p[1..] + rest;
        var q := SplitAll(rest, d);
        SplitAllPrefix(p[1..], rest, d);
        var r := SplitAll(s[1..], d);
        assert r == [p[1..] + q[0]] + q[1..];
        assert SplitAll(s, d) == [[s[0]] + r[0]] + r[1..];
        assert [s[0]] + r[0] == p + q[0];
        assert r[1..] == q[1..];
      }
    }
  }

  /**
   * Joining pieces that do not contain the delimiter's first element and
   * splitting again gives the pieces back.
   */
  lemma {:induction false} SplitAllJoin<T>(parts: seq<seq<T>>, d: seq<T>)
    requires |d| > 0 && |parts| >= 1
    requires forall i | 0 <= i < |parts| :: d[0] !in parts[i]
    ensures SplitAll(Join(parts, d), d) == parts
    decreases |parts|
  {
    if |parts| == 1 {
      SplitAllPrefix(parts[0], [], d);
      assert parts[0] + [] == parts[0];
    } else {
      SplitAllJoin(parts[1..], d);
      SplitAllJoinStep(parts, d);
    }
  }

  /** The inductive step of SplitAllJoin: one more piece in front. */
  lemma SplitAllJoinStep<T>(parts: seq<seq<T>>, d: seq<T>)
    requires |d| > 0 && |parts| >= 2 && d[0] !in parts[0]
    requires SplitAll(Join(parts[1..], d), d) == parts[1..]
    ensures SplitAll(Join(parts, d), d) == parts
  {
    var tail := Join(parts[1..], d);
    JoinCons(parts, d);
    SplitAllAfterDelimiter(d, tail);
    var q := SplitAll(d + tail, d);
    SplitAllPrefix(parts[0], d + tail, d);
    assert q[0] == [] && q[1..] == parts[1..];
    assert parts[0] + q[0] == parts[0];
    assert parts == [parts[0]] + q[1..];
  }

  /** A join of two or more pieces is the first piece, the delimiter, and the join of the rest. */
  lemma JoinCons<T>(parts: seq<seq<T>>, d: seq<T>)
    requires |parts| >= 2
    ensures Join(parts, d) == parts[0] + (d + Join(parts[1..], d))
  {
  }

  /** A text that starts with the delimiter splits into an empty piece and the pieces of the rest. */
  lemma SplitAllAfterDelimiter<T>(d: seq<T>, tail: seq<T>)
    requires |d| > 0
    ensures SplitAll(d + tail, d) == [[]] + SplitAll(tail, d)
  {
    assert (d + tail)[..|d|] == d;
    assert (d + tail)[|d|..] == tail;
  }

  /**
   * The Java split of the joined pieces is the pieces, when none contains the
   * delimiter's first element and the last one is not empty.
   */
  lemma SplitJoin<T>(parts: seq<seq<T>>, d: seq<T>)
    requires |d| > 0 && |parts| >= 1 && parts[|parts| - 1] != []
    requires forall i | 0 <= i < |parts| :: d[0] !in parts[i]
    ensures Split(Join(parts, d), d) == parts
  {
    SplitAllJoin(parts, d);
  }

  /** A trailing empty piece adds one delimiter at the end of the join. */
  lemma {:induction false} JoinEmptyLast<T>(parts: seq<seq<T>>, d: seq<T>)
    requires |parts| >= 1
    ensures Join(parts + [[]], d) == Join(parts, d) + d
    decreases |parts|
  {
    if |parts| == 1 {
      assert (parts + [[]])[1..] == [[]];
    } else {
      JoinEmptyLast(parts[1..], d);
      assert (parts + [[]])[1..] == parts[1..] + [[]];
    }
  }

  /** Replacement is splitting at the target and joining with the replacement. */
  lemma {:induction false} ReplaceIsJoin<T>(s: seq<T>, t: seq<T>, x: seq<T>)
    requires |t| > 0
    ensures Replace(s, t, x) == Join(SplitAll(s, t), x)
    decreases |s|
  {
    if |s| < |t| {
    } else if s[..|t|] == t {
      ReplaceIsJoin(s[|t|..], t, x);
      ReplaceAtMatch(s, t, x);
    } else {
      ReplaceIsJoin(s[1..], t, x);
      ReplacePastMismatch(s, t, x);
    }
  }

  /** One step of ReplaceIsJoin: `s` starts with the target. */
  lemma ReplaceAtMatch<T>(s: seq<T>, t: seq<T>, x: seq<T>)
    requires |t| > 0 && |s| >= |t| && s[..|t|] == t
    requires Replace(s[|t|..], t, x) == Join(SplitAll(s[|t|..], t), x)
    ensures Replace(s, t, x) == Join(SplitAll(s, t), x)
  {
    var rest := SplitAll(s[|t|..], t);
    assert Replace(s, t, x) == x + Join(rest, x);
    assert SplitAll(s, t) == [[]] + rest;
    JoinEmptyFirst(rest, x);
  }

  /** An empty first piece makes the join start with the delimiter. */
  lemma JoinEmptyFirst<T>(parts: seq<seq<T>>, d: seq<T>)
    requires |parts| >= 1
    ensures Join([[]] + parts, d) == d + Join(parts, d)
  {
    var r := [[]] + parts;
    assert r[1..] == parts;
  }

  /** One step of ReplaceIsJoin: `s` does not start with the target. */
  lemma ReplacePastMismatch<T>(s: seq<T>, t: seq<T>, x: seq<T>)
    requires |t| > 0 && |s| >= |t| && s[..|t|] != t
    requires Replace(s[1..], t, x) == Join(SplitAll(s[1..], t), x)
    ensures Replace(s, t, x) == Join(SplitAll(s, t), x)
  {
    var rest := SplitAll(s[1..], t);
    assert Replace(s, t, x) == [s[0]] + Join(rest, x);
    assert SplitAll(s, t) == [[s[0]] + rest[0]] + rest[1..];
    JoinGrowFirst(rest, x, s[0]);
  }

  /** Putting `c` in front of the first piece puts it in front of the join. */
  lemma JoinGrowFirst<T>(parts: seq<seq<T>>, d: seq<T>, c: T)
    requires |parts| >= 1
    ensures Join([[c] + parts[0]] + parts[1..], d) == [c] + Join(parts, d)
  {
    var r := [[c] + parts[0]] + parts[1..];
    if |parts| > 1 {
      assert r[1..] == parts[1..];
      assert Join(r, d) == r[0] + d + Join(parts[1..], d);
      assert Join(parts, d) == parts[0] + d + Join(parts[1..], d);
    }
  }

  /**
   * The first piece of a split is what comes before the first occurrence of
   * the delimiter, or everything when there is none.
   */
  lemma {:induction false} SplitAllFirstPiece<T>(s: seq<T>, d: seq<T>)
    requires |d| > 0
    ensures var m := FirstMatch(s, d, 0, |s|); SplitAll(s, d)[0] == if m == -1 then s else s[..m]
    decreases |s|
  {
    if |s| < |d| {
    } else if s[..|d|] == d {
      FirstMatchIs(s, d, 0, |s|, 0);
    } else {
      SplitAllFirstPiece(s[1..], d);
      FirstPieceStep(s, d);
    }
  }

  /** The inductive step of SplitAllFirstPiece: `s` does not start with `d`. */
  lemma FirstPieceStep<T>(s: seq<T>, d: seq<T>)
    requires |s| >= |d| > 0 && s[..|d|] != d
    requires var m1 := FirstMatch(s[1..], d, 0, |s[1..]|);
      SplitAll(s[1..], d)[0] == if m1 == -1 then s[1..] else s[1..][..m1]
    ensures var m := FirstMatch(s, d, 0, |s|); SplitAll(s, d)[0] == if m == -1 then s else s[..m]
  {
    var rest := SplitAll(s[1..], d);
    var m1 := FirstMatch(s[1..], d, 0, |s| - 1);
    FirstMatchPastHead(s, d);
    assert SplitAll(s, d)[0] == [s[0]] + rest[0];
    if m1 == -1 {
      assert s == [s[0]] + s[1..];
    } else {
      assert s[..m1 + 1] == [s[0]] + s[1..][..m1];
    }
  }

  /** Past a head where `d` does not occur, searching `s` is searching its tail. */
  lemma FirstMatchPastHead<T>(s: seq<T>, d: seq<T>)
    requires |s| >= |d| > 0 && s[..|d|] != d
    ensures var m1 := FirstMatch(s[1..], d, 0, |s| - 1);
      FirstMatch(s, d, 0, |s|) == if m1 == -1 then -1 else m1 + 1
  {
    var m1 := FirstMatch(s[1..], d, 0, |s| - 1);
    if m1 == -1 {
      forall k | 0 <= k <= |s| - |d| ensures !MatchesAt(s, d, k) {
        if k >= 1 {
          MatchesShift(s, d, k);
        }
      }
    } else {
      forall k | 0 <= k < m1 + 1 ensures !MatchesAt(s, d, k) {
        if k >= 1 {
          MatchesShift(s, d, k);
        }
      }
      MatchesShift(s, d, m1 + 1);
      FirstMatchIs(s, d, 0, |s|, m1 + 1);
    }
  }

  /** An occurrence at `k` in `s` is an occurrence at `k - 1` in its tail. */
  lemma MatchesShift<T>(s: seq<T>, d: seq<T>, k: int)
    requires 1 <= k && |s| >= 1
    ensures MatchesAt(s, d, k) <==> MatchesAt(s[1..], d, k - 1)
  {
    if k + |d| <= |s| {
      var here, there := s[k..k + |d|], s[1..][k - 1..k - 1 + |d|];
      forall i | 0 <= i < |d| ensures here[i] == there[i] {
        assert here[i] == s[k + i] && there[i] == s[1..][k - 1 + i];
      }
      assert here == there;
    }
  }

  /**
   * In pieces joined with a two-element delimiter whose elements differ,
   * where no piece is empty or holds the delimiter's first element, that
   * element is never followed two places later by itself.
   */
  lemma {:induction false} JoinDelimiterGap<T>(parts: seq<seq<T>>, d: seq<T>, k: int)
    requires |d| == 2 && d[0] != d[1]
    requires |parts| >= 1 && forall i | 0 <= i < |parts| :: parts[i] != [] && d[0] !in parts[i]
    requires 0 <= k < |Join(parts, d)| && Join(parts, d)[k] == d[0]
    ensures k + 2 < |Join(parts, d)| && Join(parts, d)[k + 2] != d[0]
    decreases |parts|
  {
    var first := parts[0];
    if |parts| > 1 {
      var rest := Join(parts[1..], d);
      assert Join(parts, d) == first + d + rest;
      if k == |first| {
        JoinStartsWithFirst(parts[1..], d);
        assert rest[0] == parts[1][0];
        assert parts[1][0] in parts[1];
      } else {
        JoinDelimiterGap(parts[1..], d, k - |first| - 2);
      }
    }
  }

  /** The first delimiter of a text ends its first piece when that piece holds no delimiter start. */
  lemma FirstDelimiterEndsPiece<T>(piece: seq<T>, d: seq<T>, rest: seq<T>)
    requires |d| > 0 && d[0] !in piece
    ensures var s := piece + d + rest; FirstMatch(s, d, 0, |s|) == |piece|
  {
    var s := piece + d + rest;
    assert MatchesAt(s, d, |piece|) by {
      assert s[|piece|..|piece| + |d|] == d;
    }
    forall k | 0 <= k < |piece| ensures !MatchesAt(s, d, k) {
      assert s[k] == piece[k];
    }
    FirstMatchIs(s, d, 0, |s|, |piece|);
  }

  /** Where the block and its terminator sit in `prefix + block + terminator + tail`. */
  lemma ClosedBlockLayout<T>(prefix: seq<T>, block: seq<T>, terminator: seq<T>, tail: seq<T>, s: seq<T>)
    requires s == prefix + block + terminator + tail
    ensures |prefix| + |block| + |terminator| <= |s|
    ensures s[|prefix|..|prefix| + |block|] == block
    ensures s[|prefix| + |block|..|prefix| + |block| + |terminator|] == terminator
  {
  }

  /**
   * Every first element of the delimiter in `block` is followed, two places
   * later and still inside `block`, by something else.
   */
  predicate Gapped<T(==)>(block: seq<T>, d: seq<T>)
    requires |d| == 2
  {
    && (forall k | 0 <= k < |block| && block[k] == d[0] :: k + 2 < |block|)
    && (forall j, k | 0 <= j < |block| && 0 <= k < |block| && k == j + 2 :: block[j] != d[0] || block[k] != d[0])
  }

  /** Pieces joined with a two-element delimiter, none empty or holding its first element, are gapped. */
  lemma JoinGapped<T>(parts: seq<seq<T>>, d: seq<T>)
    requires |d| == 2 && d[0] != d[1]
    requires |parts| >= 1 && forall i | 0 <= i < |parts| :: parts[i] != [] && d[0] !in parts[i]
    ensures Gapped(Join(parts, d), d)
  {
    var block := Join(parts, d);
    forall k | 0 <= k < |block| && block[k] == d[0] ensures k + 2 < |block| {
      JoinDelimiterGap(parts, d, k);
    }
    forall j, k | 0 <= j < |block| && 0 <= k < |block| && k == j + 2 ensures block[j] != d[0] || block[k] != d[0] {
      if block[j] == d[0] {
        JoinDelimiterGap(parts, d, j);
      }
    }
  }

  /**
   * In a gapped block followed by the doubled delimiter, the first doubled
   * delimiter searched from the block's start is the one that ends it.
   */
  lemma FirstDoubleDelimiterAfter<T>(s: seq<T>, o: nat, block: seq<T>, d: seq<T>)
    requires |d| == 2 && d[0] != d[1] && Gapped(block, d)
    requires o + |block| + |d + d| <= |s| && s[o..o + |block|] == block && s[o + |block|..o + |block| + |d + d|] == d + d
    ensures FirstMatch(s, d + d, o, |s|) == o + |block|
  {
    var h := o + |block|;
    forall k | o <= k < h ensures !MatchesAt(s, d + d, k) {
      assert s[k] == block[k - o];
      if block[k - o] == d[0] {
        assert s[k + 2] == block[k - o + 2];
      }
    }
    assert MatchesAt(s, d + d, h);
    FirstMatchIs(s, d + d, o, |s|, h);
  }
}
