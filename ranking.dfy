/** GET /api/scores: `ORDER BY score DESC LIMIT 10`. SQL fixes the order only up to
    ties, so what a listing must be is stated as a relation (IsTop); Top is one
    ordering that meets it. */
module Ranking {
  import opened ScoreTypes

  /** The LIMIT of the listing. */
  const TopLimit: nat := 10

  function Min(a: nat, b: nat): nat
  {
    if a <= b then a else b
  }

  /** Scores never increase along the sequence. */
  ghost predicate Descending(s: seq<Score>)
  {
    forall i, j :: 0 <= i < j < |s| ==> s[i].score >= s[j].score
  }

  /** `out` is a valid answer to `ORDER BY score DESC LIMIT n` over `table`: as many
      rows as the limit allows, each taken from the table (no row more often than it
      is there), in non-increasing score order, and no row left out scores above the
      last one returned. */
  ghost predicate IsTop(table: seq<Score>, out: seq<Score>, n: nat)
  {
    && |out| == Min(n, |table|)
    && multiset(out) <= multiset(table)
    && Descending(out)
    && (|out| > 0 ==>
          forall x :: x in multiset(table) - multiset(out) ==> x.score <= out[|out| - 1].score)
  }

  /** Puts `x` into a descending sequence after every row that scores at least as much. */
  function InsertDescending(x: Score, s: seq<Score>): (r: seq<Score>)
    requires Descending(s)
    ensures multiset(r) == multiset(s) + multiset{x}
    ensures |r| == |s| + 1
    ensures Descending(r)
  {
    if s == [] then [x]
    else if x.score > s[0].score then [x] + s
    else
      var rest := InsertDescending(x, s[1..]);
      assert s == [s[0]] + s[1..];
      forall y | y in rest ensures s[0].score >= y.score {
        assert y in multiset(rest);
      }
      DescendingCons(s[0], rest);
      [s[0]] + rest
  }

  lemma DescendingCons(h: Score, t: seq<Score>)
    requires Descending(t)
    requires forall y :: y in t ==> h.score >= y.score
    ensures Descending([h] + t)
  {
    forall i, j | 0 <= i < j < |[h] + t| ensures ([h] + t)[i].score >= ([h] + t)[j].score {
      if i == 0 {
        assert ([h] + t)[j] in t;
      }
    }
  }

  /** All rows, highest score first (ties in an order the listing does not promise). */
  function SortDescending(table: seq<Score>): (r: seq<Score>)
    ensures multiset(r) == multiset(table)
    ensures |r| == |table|
    ensures Descending(r)
  {
    if table == [] then []
    else
      assert table == [table[0]] + table[1..];
      InsertDescending(table[0], SortDescending(table[1..]))
  }

  /** One answer to the listing query. */
  function Top(table: seq<Score>, n: nat): (r: seq<Score>)
    ensures IsTop(table, r, n)
  {
    var sorted := SortDescending(table);
    TopOfSorted(table, sorted, n);
    sorted[..Min(n, |table|)]
  }

  /** The first `m` rows of a descending ordering of the table form a listing. */
  lemma TopOfSorted(table: seq<Score>, sorted: seq<Score>, n: nat)
    requires multiset(sorted) == multiset(table) && |sorted| == |table| && Descending(sorted)
    ensures IsTop(table, sorted[..Min(n, |table|)], n)
  {
    var m := Min(n, |table|);
    PrefixSplit(sorted, m);
    PrefixDescending(sorted, m);
    if m > 0 {
      RestBelowCut(sorted, m);
    }
  }

  /** Cutting a sequence at `m`: the prefix is a sub-multiset and what it leaves out is the suffix. */
  lemma PrefixSplit(s: seq<Score>, m: nat)
    requires m <= |s|
    ensures |s[..m]| == m
    ensures multiset(s[..m]) <= multiset(s)
    ensures multiset(s) - multiset(s[..m]) == multiset(s[m..])
  {
    assert s == s[..m] + s[m..];
    assert multiset(s) == multiset(s[..m]) + multiset(s[m..]);
  }

  lemma PrefixDescending(s: seq<Score>, m: nat)
    requires m <= |s| && Descending(s)
    ensures Descending(s[..m])
  {
    forall i, j | 0 <= i < j < m ensures s[..m][i].score >= s[..m][j].score {
      assert s[..m][i] == s[i] && s[..m][j] == s[j];
    }
  }

  /** In a descending sequence nothing after position m - 1 scores above it. */
  lemma RestBelowCut(sorted: seq<Score>, m: nat)
    requires Descending(sorted) && 0 < m <= |sorted|
    ensures forall x :: x in multiset(sorted[m..]) ==> x.score <= sorted[m - 1].score
  {
    forall x | x in multiset(sorted[m..]) ensures x.score <= sorted[m - 1].score {
      assert x in sorted[m..];
      var j :| m <= j < |sorted| && sorted[j] == x;
      assert sorted[m - 1].score >= sorted[j].score;
    }
  }

  /** A sub-multiset as large as the whole is the whole. */
  lemma SubMultisetSameSize(a: multiset<Score>, b: multiset<Score>)
    requires a <= b && |a| == |b|
    ensures a == b
  {
    assert b == a + (b - a);
    assert |b - a| == 0;
  }

  /** Every listed row is a row of the table, and with no more rows than the limit the
      listing returns them all. It never holds more than the limit, and no row left
      out scores above any listed row. */
  lemma TopFromTable(table: seq<Score>, out: seq<Score>, n: nat)
    requires IsTop(table, out, n)
    ensures forall x :: x in out ==> x in table
    ensures |table| <= n ==> multiset(out) == multiset(table)
    ensures |out| <= n
    ensures forall x, k :: x in multiset(table) - multiset(out) && 0 <= k < |out| ==> x.score <= out[k].score
  {
    forall x | x in out ensures x in table {
      assert x in multiset(out);
    }
    if |table| <= n {
      SubMultisetSameSize(multiset(out), multiset(table));
    }
  }

  /** The rows of `s` that score at least `v`, in order. */
  function AtLeast(s: seq<Score>, v: int): seq<Score>
  {
    if s == [] then [] else (if s[0].score >= v then [s[0]] else []) + AtLeast(s[1..], v)
  }

  lemma {:induction false} AtLeastCount(s: seq<Score>, v: int, x: Score)
    ensures multiset(AtLeast(s, v))[x] == if x.score >= v then multiset(s)[x] else 0
  {
    if s != [] {
      AtLeastCount(s[1..], v, x);
      assert s == [s[0]] + s[1..];
    }
  }

  lemma {:induction false} AtLeastAppend(s: seq<Score>, t: seq<Score>, v: int)
    ensures AtLeast(s + t, v) == AtLeast(s, v) + AtLeast(t, v)
  {
    if s != [] {
      assert (s + t)[0] == s[0];
      assert (s + t)[1..] == s[1..] + t;
      AtLeastAppend(s[1..], t, v);
      var h := if s[0].score >= v then [s[0]] else [];
      calc {
        AtLeast(s + t, v);
        h + AtLeast(s[1..] + t, v);
        h + (AtLeast(s[1..], v) + AtLeast(t, v));
        (h + AtLeast(s[1..], v)) + AtLeast(t, v);
        AtLeast(s, v) + AtLeast(t, v);
      }
    } else {
      assert s + t == t;
    }
  }

  lemma {:induction false} AtLeastAll(s: seq<Score>, v: int)
    requires forall k :: 0 <= k < |s| ==> s[k].score >= v
    ensures AtLeast(s, v) == s
  {
    if s != [] {
      AtLeastAll(s[1..], v);
    }
  }

  lemma {:induction false} AtLeastNone(s: seq<Score>, v: int)
    requires forall k :: 0 <= k < |s| ==> s[k].score < v
    ensures AtLeast(s, v) == []
  {
    if s != [] {
      AtLeastNone(s[1..], v);
    }
  }

  /** Filtering by score keeps the sub-multiset order between two sequences. */
  lemma AtLeastMonotonic(s: seq<Score>, t: seq<Score>, v: int)
    requires multiset(s) <= multiset(t)
    ensures multiset(AtLeast(s, v)) <= multiset(AtLeast(t, v))
  {
    forall x ensures multiset(AtLeast(s, v))[x] <= multiset(AtLeast(t, v))[x] {
      AtLeastCount(s, v, x);
      AtLeastCount(t, v, x);
    }
  }

  /** When everything a listing leaves out scores below `v`, the listing holds every
      row of the table that scores at least `v`. */
  lemma AtLeastOfListing(table: seq<Score>, out: seq<Score>, v: int)
    requires multiset(out) <= multiset(table)
    requires forall x :: x in multiset(table) - multiset(out) ==> x.score < v
    ensures multiset(AtLeast(table, v)) == multiset(AtLeast(out, v))
  {
    forall x ensures multiset(AtLeast(table, v))[x] == multiset(AtLeast(out, v))[x] {
      AtLeastCount(table, v, x);
      AtLeastCount(out, v, x);
    }
  }

  /** Every row of a listing up to position i scores at least the row at i, so the
      table has at least i + 1 rows scoring that much. */
  lemma PrefixAboveCount(table: seq<Score>, a: seq<Score>, n: nat, i: nat)
    requires IsTop(table, a, n) && i < |a|
    ensures i + 1 <= |multiset(AtLeast(table, a[i].score))|
  {
    var v := a[i].score;
    PrefixAtLeast(a, i);
    PrefixSplit(a, i + 1);
    AtLeastMonotonic(a[..i + 1], table, v);
    SubMultisetSize(multiset(a[..i + 1]), multiset(AtLeast(table, v)));
  }

  /** In a descending sequence every row up to position i scores at least the row at i. */
  lemma PrefixAtLeast(a: seq<Score>, i: nat)
    requires Descending(a) && i < |a|
    ensures AtLeast(a[..i + 1], a[i].score) == a[..i + 1]
  {
    var top := a[..i + 1];
    forall k | 0 <= k < |top| ensures top[k].score >= a[i].score {
      assert top[k] == a[k];
    }
    AtLeastAll(top, a[i].score);
  }

  lemma SubMultisetSize(a: multiset<Score>, b: multiset<Score>)
    requires a <= b
    ensures |a| <= |b|
  {
    assert b == a + (b - a);
  }

  /** If a listing's rows before position i score at least v and the row at i scores
      less, the table has exactly i rows scoring at least v. */
  lemma AboveCutCount(table: seq<Score>, b: seq<Score>, n: nat, i: nat, v: int)
    requires IsTop(table, b, n) && i < |b|
    requires forall k :: 0 <= k < i ==> b[k].score >= v
    requires b[i].score < v
    ensures |multiset(AtLeast(table, v))| == i
  {
    assert b[|b| - 1].score <= b[i].score;
    AtLeastOfListing(table, b, v);
    CutAt(b, i, v);
  }

  /** In a descending sequence whose rows before i score at least v and whose row at
      i scores less, the rows scoring at least v are exactly the first i. */
  lemma CutAt(b: seq<Score>, i: nat, v: int)
    requires Descending(b) && i < |b|
    requires forall k :: 0 <= k < i ==> b[k].score >= v
    requires b[i].score < v
    ensures AtLeast(b, v) == b[..i]
  {
    assert b == b[..i] + b[i..];
    AtLeastAppend(b[..i], b[i..], v);
    AtLeastAll(b[..i], v);
    forall k | 0 <= k < |b[i..]| ensures b[i..][k].score < v {
      assert b[i..][k] == b[i + k];
      assert b[i].score >= b[i + k].score;
    }
    AtLeastNone(b[i..], v);
  }

  /** If two listings agree on the scores before position i, the first does not score
      higher than the second at i. */
  lemma NotHigherAt(table: seq<Score>, a: seq<Score>, b: seq<Score>, n: nat, i: nat)
    requires IsTop(table, a, n) && IsTop(table, b, n)
    requires i < |a|
    requires forall k :: 0 <= k < i ==> a[k].score == b[k].score
    ensures a[i].score <= b[i].score
  {
    if a[i].score > b[i].score {
      PrefixAboveCount(table, a, n, i);
      AboveCutCount(table, b, n, i, a[i].score);
      assert false;
    }
  }

  lemma {:induction false} AgreeBelow(table: seq<Score>, a: seq<Score>, b: seq<Score>, n: nat, i: nat)
    requires IsTop(table, a, n) && IsTop(table, b, n)
    requires i <= |a|
    ensures forall k :: 0 <= k < i ==> a[k].score == b[k].score
  {
    if i > 0 {
      AgreeBelow(table, a, b, n, i - 1);
      NotHigherAt(table, a, b, n, i - 1);
      NotHigherAt(table, b, a, n, i - 1);
    }
  }

  /** Any two valid listings of the same table have the same scores, position by
      position: the order of rows with equal scores is the only freedom. */
  lemma TopScoresDetermined(table: seq<Score>, a: seq<Score>, b: seq<Score>, n: nat)
    requires IsTop(table, a, n) && IsTop(table, b, n)
    ensures |a| == |b|
    ensures forall k :: 0 <= k < |a| ==> a[k].score == b[k].score
  {
    AgreeBelow(table, a, b, n, |a|);
  }
}
