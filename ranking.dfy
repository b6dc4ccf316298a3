/**
  The ranked result of `score_symptoms` (ui.py): percentages of the top
  score rounded to one decimal place, and the stable descending sort
  `ranked.sort(key=lambda x: x[1], reverse=True)`.

  A percentage is kept as an integer number of tenths (1000 stands for
  100.0), rounded half to even from the exact quotient.
*/
module Ranking {

  /** One `(condition, percentage)` pair of the ranked list; `pct` is in tenths of a percent. */
  datatype Entry = Entry(cond: string, pct: int)

  lemma DivMod(a: nat, b: nat)
    requires b > 0
    ensures a == b * (a / b) + a % b && 0 <= a % b < b
  {
  }

  /** `b * x` grows with `x`. */
  lemma MulAtLeast(b: nat, x: int, y: int)
    requires x >= y
    ensures b * x >= b * y
  {
    assert b * x - b * y == b * (x - y);
  }

  /** The distances from `a` to the multiples of `b` either side of it. */
  lemma NextMultiple(a: int, b: int, q: int, r: int)
    requires a == b * q + r && r < b
    ensures a - b * q == r && b * q - a == -r
    ensures a - b * (q + 1) == r - b && b * (q + 1) - a == b - r
  {
    assert b * (q + 1) == b * q + b;
  }

  /**
    `a / b` rounded to the nearest integer: within half a unit of the exact
    quotient, and on a tie (exactly half a unit either way) the even neighbour.
  */
  function RoundHalfEven(a: nat, b: nat): (q: nat)
    requires b > 0
    ensures 2 * (a - b * q) <= b && 2 * (b * q - a) <= b
    ensures 2 * (a - b * q) == b || 2 * (b * q - a) == b ==> q % 2 == 0
  {
    DivMod(a, b);
    RoundQuotient(a, b, a / b, a % b)
  }

  /**
    The quotient `q` with remainder `r`, moved up by one when `r` is more
    than half of `b`, or exactly half of it and `q` is odd.
  */
  function RoundQuotient(a: int, b: int, q: nat, r: int): (n: nat)
    requires a == b * q + r && 0 <= r < b
    ensures 2 * (a - b * n) <= b && 2 * (b * n - a) <= b
    ensures 2 * (a - b * n) == b || 2 * (b * n - a) == b ==> n % 2 == 0
  {
    NextMultiple(a, b, q, r);
    if 2 * r > b || (2 * r == b && q % 2 == 1) then
      assert (q + 1) % 2 == 0 || 2 * r > b;
      q + 1
    else
      q
  }

  /**
    `p` tenths is `100 * v / m` percent rounded to one decimal place: within
    half a tenth of the exact value, and on a tie the even neighbour.
  */
  predicate RoundedPercent(v: int, m: int, p: int) {
    && 2 * (1000 * v - m * p) <= m
    && 2 * (m * p - 1000 * v) <= m
    && (2 * (1000 * v - m * p) == m || 2 * (m * p - 1000 * v) == m ==> p % 2 == 0)
  }

  /** At most one number of tenths is the rounded percentage. */
  lemma RoundedPercentUnique(v: int, m: int, p: int, q: int)
    requires m > 0 && RoundedPercent(v, m, p) && RoundedPercent(v, m, q)
    ensures p == q
  {
    RoundedPercentNotBelow(v, m, p, q);
    RoundedPercentNotBelow(v, m, q, p);
  }

  /**
    Two roundings a whole tenth apart would both be ties, one odd; two or
    more tenths apart, they cannot both be within half a tenth.
  */
  lemma RoundedPercentNotBelow(v: int, m: int, p: int, q: int)
    requires m > 0 && RoundedPercent(v, m, p) && RoundedPercent(v, m, q)
    ensures q <= p
  {
    if p < q {
      if q >= p + 2 {
        MulAtLeast(m, q, p + 2);
        MulPlus(m, p, 2);
        assert false;
      }
      MulPlus(m, p, 1);
      assert false;
    }
  }

  lemma MulPlus(m: int, p: int, k: int)
    ensures m * (p + k) == m * p + m * k
  {
  }

  /**
    `round(100.0 * v / m, 1)`, in tenths: the rounded percentage; a score
    no larger than the top score gives at most 100.0, and the top score
    itself exactly 100.0.
  */
  function Percent(v: nat, m: nat): (p: nat)
    requires m > 0
    ensures RoundedPercent(v, m, p)
    ensures v <= m ==> p <= 1000
    ensures v == m ==> p == 1000
  {
    var p := RoundHalfEven(1000 * v, m);
    assert v <= m ==> p <= 1000 by {
      if v <= m && p > 1000 {
        MulAtLeast(m, p, 1001);
      }
    }
    assert v == m ==> p >= 1000 by {
      if v == m && p < 1000 {
        MulAtLeast(m, 999, p);
      }
    }
    p
  }

  /** Non-increasing in `pct`: the order of the sorted result. */
  predicate SortedDesc(s: seq<Entry>) {
    forall i, j :: 0 <= i < j < |s| ==> s[i].pct >= s[j].pct
  }

  /** The entries of `s` whose percentage is `p`, in their order in `s`. */
  function WithPct(s: seq<Entry>, p: int): seq<Entry> {
    if s == [] then []
    else (if s[0].pct == p then [s[0]] else []) + WithPct(s[1..], p)
  }

  /** Put `x` before the first entry whose percentage is not above its own. */
  function Insert(x: Entry, t: seq<Entry>): (r: seq<Entry>)
    ensures multiset(r) == multiset(t) + multiset{x}
  {
    if t == [] || t[0].pct <= x.pct then [x] + t
    else
      assert t == [t[0]] + t[1..];
      [t[0]] + Insert(x, t[1..])
  }

  /**
    A stable sort in descending order of percentage: `list.sort` with
    `reverse=True`, which keeps equal entries in their original order.
  */
  function SortDesc(s: seq<Entry>): (r: seq<Entry>)
    ensures multiset(r) == multiset(s)
  {
    if s == [] then []
    else
      assert s == [s[0]] + s[1..];
      Insert(s[0], SortDesc(s[1..]))
  }

  lemma {:induction false} InsertSorted(x: Entry, t: seq<Entry>)
    requires SortedDesc(t)
    ensures SortedDesc(Insert(x, t))
  {
    if t != [] && t[0].pct > x.pct {
      InsertSorted(x, t[1..]);
      var rest := Insert(x, t[1..]);
      forall j | 0 <= j < |rest| ensures t[0].pct >= rest[j].pct {
        assert rest[j] in multiset(rest);
        assert rest[j] == x || rest[j] in multiset(t[1..]);
        if rest[j] != x {
          var k :| 0 <= k < |t[1..]| && t[1..][k] == rest[j];
          assert t[k + 1] == rest[j];
        }
      }
    }
  }

  /** The sort leaves its result in non-increasing order of percentage. */
  lemma {:induction false} SortDescSorted(s: seq<Entry>)
    ensures SortedDesc(SortDesc(s))
  {
    if s != [] {
      SortDescSorted(s[1..]);
      InsertSorted(s[0], SortDesc(s[1..]));
    }
  }

  lemma {:induction false} InsertStable(x: Entry, t: seq<Entry>, p: int)
    ensures WithPct(Insert(x, t), p) == (if x.pct == p then [x] else []) + WithPct(t, p)
  {
    if t == [] || t[0].pct <= x.pct {
      assert ([x] + t)[1..] == t;
    } else {
      InsertStable(x, t[1..], p);
      assert ([t[0]] + Insert(x, t[1..]))[1..] == Insert(x, t[1..]);
    }
  }

  /**
    The sort is stable: for every percentage, the entries carrying it come
    out in the same relative order as they went in.
  */
  lemma {:induction false} SortDescStable(s: seq<Entry>, p: int)
    ensures WithPct(SortDesc(s), p) == WithPct(s, p)
  {
    if s != [] {
      SortDescStable(s[1..], p);
      InsertStable(s[0], SortDesc(s[1..]), p);
    }
  }
}
