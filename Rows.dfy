/** A table is a sequence of rows in index order. This module holds the
    order-preserving operations the dashboard applies to tables: a boolean
    row mask, duplicate removal that keeps the first occurrence, a column
    projection, column sums and sums per group, together with the facts about
    them that the cleaning and aggregation code relies on.

    Every recursive definition peels off the LAST row, so that a loop that
    walks a table front to back keeps the invariant `out == F(s[..i])`. */
module Rows {

  // ---------------------------------------------------------------------
  // Row masks
  // ---------------------------------------------------------------------

  /** The rows of `s` for which the mask `p` holds, in their original order. */
  function Filter<T>(p: T -> bool, s: seq<T>): (r: seq<T>)
    ensures |r| <= |s|
    decreases |s|
  {
    if s == [] then []
    else Filter(p, s[..|s| - 1]) + (if p(s[|s| - 1]) then [s[|s| - 1]] else [])
  }

  lemma FilterSnoc<T>(p: T -> bool, s: seq<T>, x: T)
    ensures Filter(p, s + [x]) == Filter(p, s) + (if p(x) then [x] else [])
  {
    assert (s + [x])[..|s|] == s;
  }

  /** A row survives the mask exactly when it is in the table and passes the mask. */
  lemma {:induction false} FilterMembers<T>(p: T -> bool, s: seq<T>)
    ensures forall x :: x in Filter(p, s) <==> x in s && p(x)
    decreases |s|
  {
    if s != [] {
      var init, x := s[..|s| - 1], s[|s| - 1];
      FilterMembers(p, init);
      assert s == init + [x];
    }
  }

  /** Every row of the result passes the mask. */
  lemma FilterAllPass<T>(p: T -> bool, s: seq<T>)
    ensures forall i :: 0 <= i < |Filter(p, s)| ==> p(Filter(p, s)[i])
  {
    FilterMembers(p, s);
    forall i | 0 <= i < |Filter(p, s)|
      ensures p(Filter(p, s)[i])
    {
      assert Filter(p, s)[i] in Filter(p, s);
    }
  }

  /** A mask that every row passes removes nothing. */
  lemma {:induction false} FilterKeepsAll<T>(p: T -> bool, s: seq<T>)
    requires forall i :: 0 <= i < |s| ==> p(s[i])
    ensures Filter(p, s) == s
    decreases |s|
  {
    if s != [] {
      FilterKeepsAll(p, s[..|s| - 1]);
      assert s == s[..|s| - 1] + [s[|s| - 1]];
    }
  }

  /** A mask that no row passes removes everything. */
  lemma {:induction false} FilterDropsAll<T>(p: T -> bool, s: seq<T>)
    requires forall i :: 0 <= i < |s| ==> !p(s[i])
    ensures Filter(p, s) == []
    decreases |s|
  {
    if s != [] {
      FilterDropsAll(p, s[..|s| - 1]);
    }
  }

  /** Two masks applied one after the other give the same table in either order. */
  lemma {:induction false} FilterCommute<T>(p: T -> bool, q: T -> bool, s: seq<T>)
    ensures Filter(p, Filter(q, s)) == Filter(q, Filter(p, s))
    decreases |s|
  {
    if s != [] {
      var init, x := s[..|s| - 1], s[|s| - 1];
      assert s == init + [x];
      FilterCommute(p, q, init);
      FilterSnoc(p, init, x);
      FilterSnoc(q, init, x);
      FilterSnoc(p, Filter(q, init), x);
      FilterSnoc(q, Filter(p, init), x);
      if p(x) && q(x) {
        assert Filter(q, s) == Filter(q, init) + [x];
        assert Filter(p, s) == Filter(p, init) + [x];
      } else if p(x) {
        assert Filter(q, s) == Filter(q, init);
        assert Filter(p, s) == Filter(p, init) + [x];
      } else if q(x) {
        assert Filter(q, s) == Filter(q, init) + [x];
        assert Filter(p, s) == Filter(p, init);
      } else {
        assert Filter(q, s) == Filter(q, init);
        assert Filter(p, s) == Filter(p, init);
      }
    }
  }

  /** Masking a prefix of a table gives a prefix of the masked table. */
  lemma {:induction false} FilterPrefix<T>(p: T -> bool, s: seq<T>, i: nat)
    requires i <= |s|
    ensures Filter(p, s[..i]) <= Filter(p, s)
    decreases |s|
  {
    if i < |s| {
      FilterPrefix(p, s[..|s| - 1], i);
      assert s[..|s| - 1][..i] == s[..i];
    } else {
      assert s[..i] == s;
    }
  }

  // ---------------------------------------------------------------------
  // Order-preserving subsequences
  // ---------------------------------------------------------------------

  /** `a` is obtained from `b` by deleting rows and keeping the order of the rest. */
  ghost predicate SubseqOf<T>(a: seq<T>, b: seq<T>)
    decreases |b|
  {
    a == [] ||
    (b != [] &&
     ((a[|a| - 1] == b[|b| - 1] && SubseqOf(a[..|a| - 1], b[..|b| - 1])) ||
      SubseqOf(a, b[..|b| - 1])))
  }

  lemma {:induction false} SubseqRefl<T>(s: seq<T>)
    ensures SubseqOf(s, s)
    decreases |s|
  {
    if s != [] {
      SubseqRefl(s[..|s| - 1]);
    }
  }

  lemma {:induction false} SubseqTrans<T>(a: seq<T>, b: seq<T>, c: seq<T>)
    requires SubseqOf(a, b) && SubseqOf(b, c)
    ensures SubseqOf(a, c)
    decreases |c|
  {
    if a != [] {
      var c' := c[..|c| - 1];
      var b' := b[..|b| - 1];
      if SubseqOf(b, c') {
        SubseqTrans(a, b, c');
      } else if a[|a| - 1] == b[|b| - 1] && SubseqOf(a[..|a| - 1], b') {
        SubseqTrans(a[..|a| - 1], b', c');
      } else {
        SubseqTrans(a, b', c');
      }
    }
  }

  /** Masking only deletes rows and keeps the order of the others. */
  lemma {:induction false} FilterSubseq<T>(p: T -> bool, s: seq<T>)
    ensures SubseqOf(Filter(p, s), s)
    decreases |s|
  {
    if s != [] {
      var init, x := s[..|s| - 1], s[|s| - 1];
      FilterSubseq(p, init);
      var r := Filter(p, s);
      if p(x) {
        assert r[..|r| - 1] == Filter(p, init);
        assert r[|r| - 1] == s[|s| - 1];
      } else {
        assert r == Filter(p, init);
      }
    }
  }

  // ---------------------------------------------------------------------
  // Duplicate removal
  // ---------------------------------------------------------------------

  /** No two rows of `s` are equal. */
  ghost predicate Distinct<T>(s: seq<T>)
  {
    forall i, j :: 0 <= i < j < |s| ==> s[i] != s[j]
  }

  lemma DistinctSnoc<T>(s: seq<T>, x: T)
    requires Distinct(s) && x !in s
    ensures Distinct(s + [x])
  {
    var t := s + [x];
    forall i, j | 0 <= i < j < |t|
      ensures t[i] != t[j]
    {
      if j == |s| {
        assert t[i] == s[i];
      }
    }
  }

  lemma DistinctCons<T>(x: T, s: seq<T>)
    requires Distinct(s) && x !in s
    ensures Distinct([x] + s)
  {
    var t := [x] + s;
    forall i, j | 0 <= i < j < |t|
      ensures t[i] != t[j]
    {
      if i == 0 {
        assert t[j] == s[j - 1];
      } else {
        assert t[i] == s[i - 1] && t[j] == s[j - 1];
      }
    }
  }

  /** The table without rows equal to an earlier row: every row is kept at its
      first occurrence, later copies are dropped. */
  function Dedup<T(==)>(s: seq<T>): (r: seq<T>)
    ensures |r| <= |s|
    decreases |s|
  {
    if s == [] then []
    else Dedup(s[..|s| - 1]) + (if s[|s| - 1] in s[..|s| - 1] then [] else [s[|s| - 1]])
  }

  lemma DedupSnoc<T>(s: seq<T>, x: T)
    ensures Dedup(s + [x]) == Dedup(s) + (if x in s then [] else [x])
  {
    assert (s + [x])[..|s|] == s;
  }

  /** Duplicate removal keeps every distinct row: the set of rows is unchanged. */
  lemma {:induction false} DedupMembers<T>(s: seq<T>)
    ensures forall x :: x in Dedup(s) <==> x in s
    decreases |s|
  {
    if s != [] {
      var init, x := s[..|s| - 1], s[|s| - 1];
      DedupMembers(init);
      assert s == init + [x];
    }
  }

  /** After duplicate removal no two rows are equal. */
  lemma {:induction false} DedupDistinct<T>(s: seq<T>)
    ensures Distinct(Dedup(s))
    decreases |s|
  {
    if s != [] {
      var init, x := s[..|s| - 1], s[|s| - 1];
      DedupDistinct(init);
      DedupMembers(init);
      if x !in init {
        DistinctSnoc(Dedup(init), x);
      }
    }
  }

  /** A table without duplicates is left as it is. */
  lemma {:induction false} DedupOfDistinct<T>(s: seq<T>)
    requires Distinct(s)
    ensures Dedup(s) == s
    decreases |s|
  {
    if s != [] {
      var init, x := s[..|s| - 1], s[|s| - 1];
      assert x !in init by {
        forall k | 0 <= k < |init|
          ensures init[k] != x
        {
          assert init[k] == s[k];
        }
      }
      DedupOfDistinct(init);
      assert s == init + [x];
    }
  }

  /** Duplicate removal only deletes rows and keeps the order of the others. */
  lemma {:induction false} DedupSubseq<T>(s: seq<T>)
    ensures SubseqOf(Dedup(s), s)
    decreases |s|
  {
    if s != [] {
      var init, x := s[..|s| - 1], s[|s| - 1];
      DedupSubseq(init);
      var r := Dedup(s);
      if x !in init {
        assert r[..|r| - 1] == Dedup(init);
        assert r[|r| - 1] == s[|s| - 1];
      } else {
        assert r == Dedup(init);
      }
    }
  }

  /** Deduplicating a prefix of a table gives a prefix of the deduplicated table. */
  lemma {:induction false} DedupPrefix<T>(s: seq<T>, i: nat)
    requires i <= |s|
    ensures Dedup(s[..i]) <= Dedup(s)
    decreases |s|
  {
    if i < |s| {
      DedupPrefix(s[..|s| - 1], i);
      assert s[..|s| - 1][..i] == s[..i];
    } else {
      assert s[..i] == s;
    }
  }

  /** The first occurrence of a row is kept, right after the distinct rows
      that come before it. */
  lemma DedupKeepsFirst<T>(s: seq<T>, i: nat)
    requires i < |s| && s[i] !in s[..i]
    ensures |Dedup(s[..i])| < |Dedup(s)| && Dedup(s)[|Dedup(s[..i])|] == s[i]
  {
    assert s[..i + 1] == s[..i] + [s[i]];
    DedupSnoc(s[..i], s[i]);
    DedupPrefix(s, i + 1);
  }

  /** Masking and duplicate removal can be applied in either order. */
  lemma {:induction false} DedupFilterCommute<T>(p: T -> bool, s: seq<T>)
    ensures Dedup(Filter(p, s)) == Filter(p, Dedup(s))
    decreases |s|
  {
    if s != [] {
      var init, x := s[..|s| - 1], s[|s| - 1];
      assert s == init + [x];
      DedupFilterCommute(p, init);
      FilterSnoc(p, init, x);
      DedupSnoc(init, x);
      if p(x) {
        FilterMembers(p, init);
        DedupSnoc(Filter(p, init), x);
        FilterSnoc(p, Dedup(init), x);
      } else {
        assert Filter(p, s) == Filter(p, init);
        if x !in init {
          assert Dedup(s) == Dedup(init) + [x];
          FilterSnoc(p, Dedup(init), x);
          assert Filter(p, Dedup(s)) == Filter(p, Dedup(init));
        } else {
          assert Dedup(s) == Dedup(init);
        }
      }
    }
  }

  // ---------------------------------------------------------------------
  // Column projection
  // ---------------------------------------------------------------------

  /** The column `f` of every row, in row order. */
  function Project<T, U>(f: T -> U, s: seq<T>): (r: seq<U>)
    ensures |r| == |s|
    ensures forall i :: 0 <= i < |s| ==> r[i] == f(s[i])
    decreases |s|
  {
    if s == [] then [] else Project(f, s[..|s| - 1]) + [f(s[|s| - 1])]
  }

  lemma ProjectSnoc<T, U>(f: T -> U, s: seq<T>, x: T)
    ensures Project(f, s + [x]) == Project(f, s) + [f(x)]
  {
    assert (s + [x])[..|s|] == s;
  }

  // ---------------------------------------------------------------------
  // Column sums
  // ---------------------------------------------------------------------

  /** The sum of the column `f` over the table. */
  function SumOf<T>(f: T -> int, s: seq<T>): int
    decreases |s|
  {
    if s == [] then 0 else SumOf(f, s[..|s| - 1]) + f(s[|s| - 1])
  }

  lemma SumOfSnoc<T>(f: T -> int, s: seq<T>, x: T)
    ensures SumOf(f, s + [x]) == SumOf(f, s) + f(x)
  {
    assert (s + [x])[..|s|] == s;
  }

  /** The sum over two tables put one after the other is the sum of the two sums. */
  lemma {:induction false} SumOfAppend<T>(f: T -> int, a: seq<T>, b: seq<T>)
    ensures SumOf(f, a + b) == SumOf(f, a) + SumOf(f, b)
    decreases |b|
  {
    if b == [] {
      assert a + b == a;
    } else {
      var init, x := b[..|b| - 1], b[|b| - 1];
      SumOfAppend(f, a, init);
      assert a + b == (a + init) + [x];
      SumOfSnoc(f, a + init, x);
    }
  }

  lemma {:induction false} SumOfNonneg<T>(f: T -> int, s: seq<T>)
    requires forall i :: 0 <= i < |s| ==> f(s[i]) >= 0
    ensures SumOf(f, s) >= 0
    decreases |s|
  {
    if s != [] {
      SumOfNonneg(f, s[..|s| - 1]);
    }
  }

  /** A column whose every entry is positive sums to at least the row count. */
  lemma {:induction false} SumOfPositive<T>(f: T -> int, s: seq<T>)
    requires forall i :: 0 <= i < |s| ==> f(s[i]) > 0
    ensures SumOf(f, s) >= |s|
    decreases |s|
  {
    if s != [] {
      SumOfPositive(f, s[..|s| - 1]);
    }
  }

  /** Deleting rows never increases the sum of a non-negative column. */
  lemma {:induction false} SumOfSubseq<T>(f: T -> int, a: seq<T>, b: seq<T>)
    requires SubseqOf(a, b)
    requires forall i :: 0 <= i < |b| ==> f(b[i]) >= 0
    ensures SumOf(f, a) <= SumOf(f, b)
    decreases |b|
  {
    if a == [] {
      SumOfNonneg(f, b);
    } else {
      var b' := b[..|b| - 1];
      if SubseqOf(a, b') {
        SumOfSubseq(f, a, b');
      } else {
        SumOfSubseq(f, a[..|a| - 1], b');
      }
    }
  }

  /** A mask that only removes rows whose entry in `f` is zero leaves the sum of `f` unchanged. */
  lemma {:induction false} SumOfFilterZeros<T>(p: T -> bool, f: T -> int, s: seq<T>)
    requires forall i :: 0 <= i < |s| ==> p(s[i]) || f(s[i]) == 0
    ensures SumOf(f, Filter(p, s)) == SumOf(f, s)
    decreases |s|
  {
    if s != [] {
      var init, x := s[..|s| - 1], s[|s| - 1];
      assert s == init + [x];
      SumOfFilterZeros(p, f, init);
      FilterSnoc(p, init, x);
      SumOfSnoc(f, init, x);
      if p(x) {
        assert Filter(p, s) == Filter(p, init) + [x];
        SumOfSnoc(f, Filter(p, init), x);
      } else {
        assert p(s[|s| - 1]) || f(s[|s| - 1]) == 0;
        assert Filter(p, s) == Filter(p, init);
      }
    }
  }

  /** Summing a column of a projected table is summing the composed column of the table. */
  lemma {:induction false} SumOfProject<T, U>(f: U -> int, g: T -> U, h: T -> int, s: seq<T>)
    requires forall i :: 0 <= i < |s| ==> f(g(s[i])) == h(s[i])
    ensures SumOf(f, Project(g, s)) == SumOf(h, s)
    decreases |s|
  {
    if s != [] {
      var init, x := s[..|s| - 1], s[|s| - 1];
      SumOfProject(f, g, h, init);
      SumOfSnoc(f, Project(g, init), g(x));
    }
  }

  /** The constant column 1: its sum is a row count. */
  function One<T>(x: T): int { 1 }

  lemma {:induction false} SumOfOne<T>(s: seq<T>)
    ensures SumOf(One, s) == |s|
    decreases |s|
  {
    if s != [] {
      SumOfOne(s[..|s| - 1]);
    }
  }

  // ---------------------------------------------------------------------
  // Sums per group
  // ---------------------------------------------------------------------

  /** The mask selecting the rows whose key is `k`. */
  function KeyIs<T, K(==)>(key: T -> K, k: K): T -> bool
  {
    x => key(x) == k
  }

  /** The sum of `f` over the rows of each key in `ks`, added up over the keys. */
  function GroupSums<T, K(==)>(key: T -> K, ks: seq<K>, f: T -> int, s: seq<T>): int
    decreases |ks|
  {
    if ks == [] then 0
    else GroupSums(key, ks[..|ks| - 1], f, s) + SumOf(f, Filter(KeyIs(key, ks[|ks| - 1]), s))
  }

  lemma {:induction false} GroupSumsEmpty<T, K>(key: T -> K, ks: seq<K>, f: T -> int)
    ensures GroupSums(key, ks, f, []) == 0
    decreases |ks|
  {
    if ks != [] {
      GroupSumsEmpty(key, ks[..|ks| - 1], f);
    }
  }

  lemma {:induction false} GroupSumsSnoc<T, K>(key: T -> K, ks: seq<K>, f: T -> int, s: seq<T>, x: T)
    requires Distinct(ks)
    ensures GroupSums(key, ks, f, s + [x]) == GroupSums(key, ks, f, s) + (if key(x) in ks then f(x) else 0)
    decreases |ks|
  {
    if ks != [] {
      var init, k := ks[..|ks| - 1], ks[|ks| - 1];
      assert ks == init + [k];
      assert Distinct(init) by {
        forall i, j | 0 <= i < j < |init|
          ensures init[i] != init[j]
        {
          assert init[i] == ks[i] && init[j] == ks[j];
        }
      }
      assert k !in init by {
        forall i | 0 <= i < |init|
          ensures init[i] != k
        {
          assert init[i] == ks[i];
        }
      }
      GroupSumsSnoc(key, init, f, s, x);
      FilterSnoc(KeyIs(key, k), s, x);
      assert KeyIs(key, k)(x) == (key(x) == k);
      var ws := Filter(KeyIs(key, k), s);
      if key(x) == k {
        assert Filter(KeyIs(key, k), s + [x]) == ws + [x];
        SumOfSnoc(f, ws, x);
        assert key(x) !in init;
      } else {
        assert Filter(KeyIs(key, k), s + [x]) == ws;
        assert key(x) in ks <==> key(x) in init;
      }
    }
  }

  /** When every row's key is listed exactly once, the group sums add up to the column total. */
  lemma {:induction false} GroupSumsTotal<T, K>(key: T -> K, ks: seq<K>, f: T -> int, s: seq<T>)
    requires Distinct(ks)
    requires forall i :: 0 <= i < |s| ==> key(s[i]) in ks
    ensures GroupSums(key, ks, f, s) == SumOf(f, s)
    decreases |s|
  {
    if s == [] {
      GroupSumsEmpty(key, ks, f);
    } else {
      var init, x := s[..|s| - 1], s[|s| - 1];
      GroupSumsTotal(key, ks, f, init);
      assert s == init + [x];
      GroupSumsSnoc(key, ks, f, init, x);
    }
  }
}
