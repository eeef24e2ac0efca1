/** The relational meaning of the two EMPLOYEE merges of Functions.py: the inner
    equi-join of line 24 and the full outer join with a membership indicator of
    line 43, plus the anti-join that describes the rows without a partner. */
module Joins {
  import opened Records

  /** The rows of `b` whose EMPLOYEE is `k`, in their order in `b`: the partners
      that a row with key `k` finds on the other side. */
  function WithKey(b: seq<Row>, k: Key): (r: seq<Row>)
    ensures |r| == CountKey(b, k)
    ensures forall y {:trigger multiset(r)[y]} :: multiset(r)[y] == if y.employee == k then multiset(b)[y] else 0
  {
    if b == [] then []
    else
      assert b == [b[0]] + b[1..];
      (if b[0].employee == k then [b[0]] else []) + WithKey(b[1..], k)
  }

  /** A row finds no partner exactly when its key is absent from the other side. */
  lemma WithKeyEmpty(b: seq<Row>, k: Key)
    ensures WithKey(b, k) == [] <==> k !in KeysOf(b)
  {
    CountKeyPositive(b, k);
  }

  /** `x` paired with each row of `ys`, in order. */
  function PairWith(x: Row, ys: seq<Row>): (r: seq<(Row, Row)>)
    ensures |r| == |ys|
    ensures forall i | 0 <= i < |r| :: r[i] == (x, ys[i])
  {
    if ys == [] then [] else [(x, ys[0])] + PairWith(x, ys[1..])
  }

  lemma {:induction false} PairWithMultiplicity(x: Row, ys: seq<Row>, l: Row, r: Row)
    ensures multiset(PairWith(x, ys))[(l, r)] == if l == x then multiset(ys)[r] else 0
  {
    if ys != [] {
      PairWithMultiplicity(x, ys[1..], l, r);
      assert ys == [ys[0]] + ys[1..];
    }
  }

  /** The inner equi-join on EMPLOYEE: for each row of `a` in order, one pair with
      each row of `b` that has the same key. Duplicate keys give a cross product.
      Every pair it yields joins a row of `a` with a row of `b` of the same key. */
  function InnerJoin(a: seq<Row>, b: seq<Row>): (r: seq<(Row, Row)>)
    ensures forall p | p in r :: p.0 in a && p.1 in b && p.0.employee == p.1.employee
  {
    if a == [] then []
    else
      assert a == [a[0]] + a[1..];
      PartnersOf(a[0], b);
      PairWith(a[0], WithKey(b, a[0].employee)) + InnerJoin(a[1..], b)
  }

  /** The pairs a row forms with its partners join it with rows of `b` of the
      same key. */
  lemma PartnersOf(x: Row, b: seq<Row>)
    ensures forall p | p in PairWith(x, WithKey(b, x.employee)) :: p.0 == x && p.1 in b && p.1.employee == x.employee
  {
    var ws := WithKey(b, x.employee);
    forall p | p in PairWith(x, ws) ensures p.0 == x && p.1 in b && p.1.employee == x.employee {
      var i :| 0 <= i < |ws| && PairWith(x, ws)[i] == p;
      assert multiset(ws)[ws[i]] > 0;
    }
  }

  /** Relational meaning of the inner join: the pair (l, r) occurs as often as l
      occurs in `a` times as often as r occurs in `b` when their keys agree, and
      never otherwise. */
  lemma {:induction false} InnerJoinMultiplicity(a: seq<Row>, b: seq<Row>, l: Row, r: Row)
    ensures multiset(InnerJoin(a, b))[(l, r)]
            == if l.employee == r.employee then multiset(a)[l] * multiset(b)[r] else 0
  {
    if a != [] {
      var h := if l == a[0] then 1 else 0;
      InnerJoinMultiplicity(a[1..], b, l, r);
      InnerJoinHeadMultiplicity(a, b, l, r);
      MultiplicityHead(a, l);
      CountStep(multiset(InnerJoin(a, b))[(l, r)], multiset(InnerJoin(a[1..], b))[(l, r)],
                h, multiset(a[1..])[l], multiset(a)[l], multiset(b)[r], l.employee == r.employee);
    }
  }

  /** The arithmetic of one induction step of the join counts: one more row on
      the left adds its partner count to the product. */
  lemma CountStep(total: int, rest: int, h: nat, m: nat, all: nat, n: nat, matches: bool)
    requires h <= 1 && all == h + m
    requires rest == if matches then m * n else 0
    requires total == (if h == 1 && matches then n else 0) + rest
    ensures total == if matches then all * n else 0
  {
    if matches && h == 1 {
      assert (1 + m) * n == n + m * n;
    }
  }

  lemma MultiplicityHead(a: seq<Row>, l: Row)
    requires a != []
    ensures multiset(a)[l] == (if l == a[0] then 1 else 0) + multiset(a[1..])[l]
  {
    assert a == [a[0]] + a[1..];
  }

  /** The pairs contributed by the first row of `a`. */
  lemma InnerJoinHeadMultiplicity(a: seq<Row>, b: seq<Row>, l: Row, r: Row)
    requires a != []
    ensures multiset(InnerJoin(a, b))[(l, r)]
            == (if l == a[0] && l.employee == r.employee then multiset(b)[r] else 0)
               + multiset(InnerJoin(a[1..], b))[(l, r)]
  {
    var x := a[0];
    var ps := WithKey(b, x.employee);
    PairWithMultiplicity(x, ps, l, r);
    assert multiset(InnerJoin(a, b))[(l, r)]
        == multiset(PairWith(x, ps))[(l, r)] + multiset(InnerJoin(a[1..], b))[(l, r)];
  }

  lemma PositiveProduct(m: nat, n: nat)
    ensures m * n > 0 <==> m > 0 && n > 0
  {
    if m > 0 && n > 0 {
      assert m * n >= n;
    }
  }

  /** A pair is joined exactly when both rows are present and their keys agree. */
  lemma InnerJoinMembership(a: seq<Row>, b: seq<Row>, l: Row, r: Row)
    ensures (l, r) in InnerJoin(a, b) <==> l in a && r in b && l.employee == r.employee
  {
    InnerJoinMultiplicity(a, b, l, r);
    PositiveProduct(multiset(a)[l], multiset(b)[r]);
  }

  /** The EMPLOYEE of each joined pair (taken from its left row), in order. */
  function LeftKeys(j: seq<(Row, Row)>): seq<Key>
  {
    if j == [] then [] else [j[0].0.employee] + LeftKeys(j[1..])
  }

  lemma {:induction false} LeftKeysAppend(s: seq<(Row, Row)>, t: seq<(Row, Row)>)
    ensures LeftKeys(s + t) == LeftKeys(s) + LeftKeys(t)
  {
    if s == [] {
      assert s + t == t;
    } else {
      assert (s + t)[1..] == s[1..] + t;
      LeftKeysAppend(s[1..], t);
    }
  }

  lemma {:induction false} LeftKeysPairWith(x: Row, ys: seq<Row>, k: Key)
    ensures multiset(LeftKeys(PairWith(x, ys)))[k] == if x.employee == k then |ys| else 0
  {
    if ys != [] {
      LeftKeysPairWith(x, ys[1..], k);
    }
  }

  /** Per key, the join holds (count of the key in `a`) x (count in `b`) pairs. */
  lemma {:induction false} InnerJoinKeyCount(a: seq<Row>, b: seq<Row>, k: Key)
    ensures multiset(LeftKeys(InnerJoin(a, b)))[k] == CountKey(a, k) * CountKey(b, k)
  {
    if a != [] {
      var h := if a[0].employee == k then 1 else 0;
      InnerJoinKeyCount(a[1..], b, k);
      InnerJoinHeadKeyCount(a, b, k);
      CountKeyHead(a, k);
      CountStep(multiset(LeftKeys(InnerJoin(a, b)))[k], multiset(LeftKeys(InnerJoin(a[1..], b)))[k],
                h, CountKey(a[1..], k), CountKey(a, k), CountKey(b, k), true);
    }
  }

  /** The keys contributed by the first row of `a`. */
  lemma InnerJoinHeadKeyCount(a: seq<Row>, b: seq<Row>, k: Key)
    requires a != []
    ensures multiset(LeftKeys(InnerJoin(a, b)))[k]
            == (if a[0].employee == k then CountKey(b, k) else 0) + multiset(LeftKeys(InnerJoin(a[1..], b)))[k]
  {
    var x := a[0];
    var ps := WithKey(b, x.employee);
    LeftKeysAppend(PairWith(x, ps), InnerJoin(a[1..], b));
    LeftKeysPairWith(x, ps, k);
  }

  /** The rows of `a` whose EMPLOYEE never occurs in `b`, in their order in `a`. */
  function AntiJoin(a: seq<Row>, b: seq<Row>): (r: seq<Row>)
    ensures forall x {:trigger multiset(r)[x]} :: multiset(r)[x] == if x.employee in KeysOf(b) then 0 else multiset(a)[x]
  {
    if a == [] then []
    else
      assert a == [a[0]] + a[1..];
      (if a[0].employee in KeysOf(b) then [] else [a[0]]) + AntiJoin(a[1..], b)
  }

  /** The keys left by the anti-join are those of `a` that `b` lacks. */
  lemma AntiJoinKeys(a: seq<Row>, b: seq<Row>)
    ensures KeysOf(AntiJoin(a, b)) == KeysOf(a) - KeysOf(b)
  {
    forall k ensures k in KeysOf(AntiJoin(a, b)) <==> k in KeysOf(a) - KeysOf(b) {
      AntiJoinKeyCount(a, b, k);
      CountKeyPositive(AntiJoin(a, b), k);
      CountKeyPositive(a, k);
    }
  }

  /** Per key, the anti-join keeps the whole count of `a` when `b` lacks the key,
      and drops it otherwise. */
  lemma {:induction false} AntiJoinKeyCount(a: seq<Row>, b: seq<Row>, k: Key)
    ensures CountKey(AntiJoin(a, b), k) == if k in KeysOf(b) then 0 else CountKey(a, k)
  {
    if a != [] {
      AntiJoinKeyCount(a[1..], b, k);
      var head := if a[0].employee in KeysOf(b) then [] else [a[0]];
      EmployeesAppend(head, AntiJoin(a[1..], b));
    }
  }

  /** A row of the full outer join, tagged with the merge indicator: a joined
      pair, or a row of one side that found no partner on the other. */
  datatype Joined = Both(left: Row, right: Row) | LeftOnly(left: Row) | RightOnly(right: Row)

  /** `x` joined with each row of `ys`, in order. */
  function BothRows(x: Row, ys: seq<Row>): seq<Joined>
  {
    if ys == [] then [] else [Both(x, ys[0])] + BothRows(x, ys[1..])
  }

  /** The outer-join rows that the rows of `a` give rise to: a joined row per
      partner in `b`, or one left-only row when there is none. Its left-only rows
      are the anti-join of `a` by `b`, its rows present on both sides the inner
      join, and it has no right-only rows. */
  function LeftOuter(a: seq<Row>, b: seq<Row>): (r: seq<Joined>)
    ensures LeftOnlyRows(r) == AntiJoin(a, b)
    ensures RightOnlyRows(r) == []
    ensures BothPairs(r) == InnerJoin(a, b)
  {
    if a == [] then []
    else
      var ps := WithKey(b, a[0].employee);
      var head := if ps == [] then [LeftOnly(a[0])] else BothRows(a[0], ps);
      var rest := LeftOuter(a[1..], b);
      SelectAppend(head, rest);
      SelectBothRows(a[0], ps);
      WithKeyEmpty(b, a[0].employee);
      head + rest
  }

  /** The right-only rows: rows of `b` that no row of `a` joins with, tagged
      right-only; together they are the anti-join of `b` by `a`. */
  function RightRemainder(a: seq<Row>, b: seq<Row>): (r: seq<Joined>)
    ensures LeftOnlyRows(r) == []
    ensures RightOnlyRows(r) == AntiJoin(b, a)
    ensures BothPairs(r) == []
  {
    if b == [] then []
    else
      var head := if WithKey(a, b[0].employee) == [] then [RightOnly(b[0])] else [];
      var rest := RightRemainder(a, b[1..]);
      SelectAppend(head, rest);
      WithKeyEmpty(a, b[0].employee);
      head + rest
  }

  /** The full outer join of `a` and `b` on EMPLOYEE with the merge indicator.
      The indicator is right: the left-only rows are exactly the anti-join of `a`
      by `b`, the right-only rows the anti-join of `b` by `a`, and the rows
      present on both sides exactly the inner join. */
  function OuterJoin(a: seq<Row>, b: seq<Row>): (r: seq<Joined>)
    ensures LeftOnlyRows(r) == AntiJoin(a, b)
    ensures RightOnlyRows(r) == AntiJoin(b, a)
    ensures BothPairs(r) == InnerJoin(a, b)
  {
    SelectAppend(LeftOuter(a, b), RightRemainder(a, b));
    LeftOuter(a, b) + RightRemainder(a, b)
  }

  /** The left columns of the rows tagged left-only, in order: each row as often
      as `j` holds it tagged left-only. */
  function LeftOnlyRows(j: seq<Joined>): (r: seq<Row>)
    ensures forall x {:trigger multiset(r)[x]} :: multiset(r)[x] == multiset(j)[LeftOnly(x)]
  {
    if j == [] then []
    else
      assert j == [j[0]] + j[1..];
      (if j[0].LeftOnly? then [j[0].left] else []) + LeftOnlyRows(j[1..])
  }

  /** The right columns of the rows tagged right-only, in order: each row as
      often as `j` holds it tagged right-only. */
  function RightOnlyRows(j: seq<Joined>): (r: seq<Row>)
    ensures forall y {:trigger multiset(r)[y]} :: multiset(r)[y] == multiset(j)[RightOnly(y)]
  {
    if j == [] then []
    else
      assert j == [j[0]] + j[1..];
      (if j[0].RightOnly? then [j[0].right] else []) + RightOnlyRows(j[1..])
  }

  /** The pairs behind the rows tagged as present on both sides, in order. */
  function BothPairs(j: seq<Joined>): seq<(Row, Row)>
  {
    if j == [] then []
    else (if j[0].Both? then [(j[0].left, j[0].right)] else []) + BothPairs(j[1..])
  }

  lemma {:induction false} LeftOnlyRowsAppend(s: seq<Joined>, t: seq<Joined>)
    ensures LeftOnlyRows(s + t) == LeftOnlyRows(s) + LeftOnlyRows(t)
  {
    if s == [] {
      assert s + t == t;
    } else {
      assert (s + t)[0] == s[0] && (s + t)[1..] == s[1..] + t;
      LeftOnlyRowsAppend(s[1..], t);
    }
  }

  lemma {:induction false} RightOnlyRowsAppend(s: seq<Joined>, t: seq<Joined>)
    ensures RightOnlyRows(s + t) == RightOnlyRows(s) + RightOnlyRows(t)
  {
    if s == [] {
      assert s + t == t;
    } else {
      assert (s + t)[0] == s[0] && (s + t)[1..] == s[1..] + t;
      RightOnlyRowsAppend(s[1..], t);
    }
  }

  lemma {:induction false} BothPairsAppend(s: seq<Joined>, t: seq<Joined>)
    ensures BothPairs(s + t) == BothPairs(s) + BothPairs(t)
  {
    if s == [] {
      assert s + t == t;
    } else {
      assert (s + t)[0] == s[0] && (s + t)[1..] == s[1..] + t;
      BothPairsAppend(s[1..], t);
    }
  }

  lemma SelectAppend(s: seq<Joined>, t: seq<Joined>)
    ensures LeftOnlyRows(s + t) == LeftOnlyRows(s) + LeftOnlyRows(t)
    ensures RightOnlyRows(s + t) == RightOnlyRows(s) + RightOnlyRows(t)
    ensures BothPairs(s + t) == BothPairs(s) + BothPairs(t)
  {
    LeftOnlyRowsAppend(s, t);
    RightOnlyRowsAppend(s, t);
    BothPairsAppend(s, t);
  }

  lemma {:induction false} SelectBothRows(x: Row, ys: seq<Row>)
    ensures LeftOnlyRows(BothRows(x, ys)) == []
    ensures RightOnlyRows(BothRows(x, ys)) == []
    ensures BothPairs(BothRows(x, ys)) == PairWith(x, ys)
  {
    if ys != [] {
      SelectBothRows(x, ys[1..]);
    }
  }
}
