/** The rows of the two payroll extracts (463 and 322) and of the two outputs, and
    the key-level views of row sequences that the join properties are stated in. */
module Records {

  /** The EMPLOYEE join key; keys are compared by plain equality, without trimming
      or case folding. */
  type Key = string

  /** One row of an input extract, with the amount held as `A`: a raw AMOUNT cell
      before normalisation, a number after it. The same seven columns, with a
      numeric amount, form the unmatched-record schema. */
  datatype Record<A> = Record(
    employee: Key,
    name: string,
    amount: A,
    vote: string,
    ministry: string,
    deduction: string,
    vendor: string)

  /** A row after AMOUNT normalisation. */
  type Row = Record<real>

  /** One row of the matched output: EMPLOYEE, NAME, FINAL AMOUNT, then
      DEDUCTION CODE, VENDOR NAME and Amount of the 463 side and of the 322 side. */
  datatype MatchedRow = MatchedRow(
    employee: Key,
    name: string,
    finalAmount: real,
    deduction463: string,
    vendor463: string,
    amount463: real,
    deduction322: string,
    vendor322: string,
    amount322: real)

  /** `x` with its amount replaced by `v`, every other column kept. */
  function WithAmount<A, B>(x: Record<A>, v: B): Record<B>
  {
    Record(x.employee, x.name, v, x.vote, x.ministry, x.deduction, x.vendor)
  }

  /** The EMPLOYEE column of a row sequence, in row order. */
  function Employees<A>(s: seq<Record<A>>): seq<Key>
  {
    if s == [] then [] else [s[0].employee] + Employees(s[1..])
  }

  /** The EMPLOYEE column of the matched output, in row order. */
  function MatchedEmployees(ms: seq<MatchedRow>): seq<Key>
  {
    if ms == [] then [] else [ms[0].employee] + MatchedEmployees(ms[1..])
  }

  /** The distinct EMPLOYEE values of a row sequence. */
  function KeysOf<A>(s: seq<Record<A>>): set<Key>
  {
    set k | k in Employees(s)
  }

  /** The distinct EMPLOYEE values of the matched output. */
  function MatchedKeysOf(ms: seq<MatchedRow>): set<Key>
  {
    set k | k in MatchedEmployees(ms)
  }

  /** How many rows of `s` carry the key `k`. */
  function CountKey<A>(s: seq<Record<A>>, k: Key): nat
  {
    multiset(Employees(s))[k]
  }

  /** No value occurs twice in `ks`. */
  predicate Distinct(ks: seq<Key>)
  {
    forall k | k in ks :: multiset(ks)[k] <= 1
  }

  /** No EMPLOYEE occurs in two rows of `s`. */
  predicate UniqueKeys<A>(s: seq<Record<A>>)
  {
    Distinct(Employees(s))
  }

  lemma {:induction false} EmployeesAppend<A>(s: seq<Record<A>>, t: seq<Record<A>>)
    ensures Employees(s + t) == Employees(s) + Employees(t)
  {
    if s == [] {
      assert s + t == t;
    } else {
      assert (s + t)[1..] == s[1..] + t;
      EmployeesAppend(s[1..], t);
    }
  }

  lemma KeysOfAppend<A>(s: seq<Record<A>>, t: seq<Record<A>>)
    ensures KeysOf(s + t) == KeysOf(s) + KeysOf(t)
  {
    EmployeesAppend(s, t);
  }

  /** A key belongs to the key set exactly when some row carries it. */
  lemma {:induction false} KeysOfMembership<A>(s: seq<Record<A>>, k: Key)
    ensures k in KeysOf(s) <==> exists x :: x in s && x.employee == k
  {
    if s != [] {
      KeysOfMembership(s[1..], k);
      assert s == [s[0]] + s[1..];
      assert Employees(s) == [s[0].employee] + Employees(s[1..]);
    }
  }

  /** The EMPLOYEE of every row is in the key column. */
  lemma {:induction false} EmployeesContains<A>(s: seq<Record<A>>)
    ensures forall x | x in s :: x.employee in Employees(s)
  {
    if s != [] {
      EmployeesContains(s[1..]);
      assert s == [s[0]] + s[1..];
    }
  }

  lemma CountKeyHead<A>(s: seq<Record<A>>, k: Key)
    requires s != []
    ensures CountKey(s, k) == (if s[0].employee == k then 1 else 0) + CountKey(s[1..], k)
  {
  }

  /** A key has a positive count exactly when some row carries it. */
  lemma CountKeyPositive<A>(s: seq<Record<A>>, k: Key)
    ensures CountKey(s, k) > 0 <==> k in KeysOf(s)
  {
  }

  /** With unique keys, no key is carried by more than one row. */
  lemma UniqueKeysCount<A>(s: seq<Record<A>>, k: Key)
    requires UniqueKeys(s)
    ensures CountKey(s, k) <= 1
  {
    if k !in Employees(s) {
      assert multiset(Employees(s))[k] == 0;
    }
  }

  /** A sequence without repetitions has as many distinct values as elements. */
  lemma {:induction false} DistinctCard(ks: seq<Key>)
    requires Distinct(ks)
    ensures |set k | k in ks| == |ks|
  {
    if ks != [] {
      var x, t := ks[0], ks[1..];
      assert ks == [x] + t;
      assert multiset(ks)[x] == 1 + multiset(t)[x];
      assert x !in t;
      forall k ensures multiset(t)[k] <= 1 {
        assert multiset(ks)[k] == multiset([x])[k] + multiset(t)[k];
      }
      DistinctCard(t);
      assert (set k | k in ks) == {x} + (set k | k in t);
    }
  }

  /** With unique keys, the number of rows equals the number of distinct keys. */
  lemma UniqueKeysCard<A>(s: seq<Record<A>>)
    requires UniqueKeys(s)
    ensures |KeysOf(s)| == |s|
  {
    DistinctCard(Employees(s));
    EmployeesLength(s);
  }

  /** Replacing amounts row by row keeps the key column. */
  lemma {:induction false} EmployeesPointwise<A, B>(s: seq<Record<A>>, t: seq<Record<B>>)
    requires |s| == |t|
    requires forall i | 0 <= i < |s| :: s[i].employee == t[i].employee
    ensures Employees(s) == Employees(t)
  {
    if s != [] {
      EmployeesPointwise(s[1..], t[1..]);
    }
  }

  lemma {:induction false} MatchedEmployeesLength(ms: seq<MatchedRow>)
    ensures |MatchedEmployees(ms)| == |ms|
  {
    if ms != [] {
      MatchedEmployeesLength(ms[1..]);
    }
  }

  lemma {:induction false} EmployeesLength<A>(s: seq<Record<A>>)
    ensures |Employees(s)| == |s|
  {
    if s != [] {
      EmployeesLength(s[1..]);
    }
  }
}
