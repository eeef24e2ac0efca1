/** reconcile_files (Functions.py lines 8-58) without its file reading and progress
    display: normalise the AMOUNT columns of the 463 and 322 extracts, join them on
    EMPLOYEE into matched records with a combined amount, and collect the rows of
    either side that have no partner as unmatched records, 463 rows first. */
module Reconcile {
  import opened Results
  import opened Amounts
  import opened Records
  import opened Joins

  /** The two input extracts. */
  datatype File = File463 | File322

  /** The float conversion of an AMOUNT failed: which extract, the position of the
      row in it, and the offending cell. */
  datatype ConversionError = ConversionError(file: File, row: nat, cell: Cell)

  /** The two results handed back to the caller. */
  datatype Reconciliation = Reconciliation(matched: seq<MatchedRow>, unmatched: seq<Row>)

  /** Every AMOUNT cell of `rows` converts to a number. */
  predicate AmountsConvert(rows: seq<Record<Cell>>, parse: string -> Option<real>)
  {
    forall i | 0 <= i < |rows| :: NormaliseAmount(rows[i].amount, parse).Some?
  }

  /** The AMOUNT column of an extract normalised (Functions.py lines 20-21): the
      normalised rows when every amount converts, or else the position of the
      first amount that does not. */
  function NormaliseFile(rows: seq<Record<Cell>>, parse: string -> Option<real>): (r: Result<seq<Row>, nat>)
    ensures r.Success? <==> AmountsConvert(rows, parse)
    ensures r.Success? ==>
      && |r.value| == |rows|
      && forall i | 0 <= i < |rows| ::
           && Some(r.value[i].amount) == NormaliseAmount(rows[i].amount, parse)
           && r.value[i] == WithAmount(rows[i], r.value[i].amount)
    ensures r.Failure? ==>
      && r.error < |rows|
      && NormaliseAmount(rows[r.error].amount, parse).None?
      && forall i | 0 <= i < r.error :: NormaliseAmount(rows[i].amount, parse).Some?
  {
    if rows == [] then Success([])
    else
      match NormaliseAmount(rows[0].amount, parse)
      case None => Failure(0)
      case Some(v) =>
        match NormaliseFile(rows[1..], parse)
        case Failure(i) => Failure(i + 1)
        case Success(rest) => Success([WithAmount(rows[0], v)] + rest)
  }

  /** The output row of a joined pair (Functions.py lines 25-36): EMPLOYEE, NAME
      and the deduction, vendor and amount of the 463 row, the deduction, vendor
      and amount of the 322 row, and their sum as FINAL AMOUNT. */
  function MatchRow(l: Row, r: Row): (m: MatchedRow)
    ensures m.employee == l.employee && m.name == l.name
    ensures m.deduction463 == l.deduction && m.vendor463 == l.vendor && m.amount463 == l.amount
    ensures m.deduction322 == r.deduction && m.vendor322 == r.vendor && m.amount322 == r.amount
    ensures m.finalAmount == m.amount463 + m.amount322
  {
    MatchedRow(l.employee, l.name, l.amount + r.amount, l.deduction, l.vendor, l.amount,
               r.deduction, r.vendor, r.amount)
  }

  /** The output row of each joined pair, in order. */
  function MatchAll(j: seq<(Row, Row)>): (r: seq<MatchedRow>)
    ensures |r| == |j|
    ensures forall i | 0 <= i < |j| :: r[i] == MatchRow(j[i].0, j[i].1)
  {
    if j == [] then [] else [MatchRow(j[0].0, j[0].1)] + MatchAll(j[1..])
  }

  /** The matched records of the normalised extracts `a` (463) and `b` (322): one
      per joined pair, each with FINAL AMOUNT the sum of its two amounts and with
      an EMPLOYEE that both extracts carry. */
  function MatchedRecords(a: seq<Row>, b: seq<Row>): (r: seq<MatchedRow>)
    ensures |r| == |InnerJoin(a, b)|
    ensures forall m | m in r :: m.finalAmount == m.amount463 + m.amount322
    ensures forall m | m in r :: m.employee in Employees(a) && m.employee in Employees(b)
  {
    EmployeesContains(a);
    EmployeesContains(b);
    MatchAll(InnerJoin(a, b))
  }

  /** The unmatched records, derived as the source derives them: the left-only
      rows of the outer join, then its right-only rows. These are the 463 rows
      without a partner in 322, followed by the 322 rows without a partner in
      463. */
  function UnmatchedRecords(a: seq<Row>, b: seq<Row>): (r: seq<Row>)
    ensures r == AntiJoin(a, b) + AntiJoin(b, a)
  {
    var all := OuterJoin(a, b);
    LeftOnlyRows(all) + RightOnlyRows(all)
  }

  /** reconcile_files: fails when an AMOUNT of either extract does not convert
      (the 463 extract is converted first), and otherwise returns the matched and
      unmatched records. */
  function ReconcileFiles(f463: seq<Record<Cell>>, f322: seq<Record<Cell>>, parse: string -> Option<real>)
    : (r: Result<Reconciliation, ConversionError>)
    ensures r.Success? <==> AmountsConvert(f463, parse) && AmountsConvert(f322, parse)
    ensures r.Failure? && r.error.file == File463 ==>
      && r.error.row < |f463|
      && r.error.cell == f463[r.error.row].amount
      && NormaliseAmount(r.error.cell, parse).None?
    ensures r.Failure? && r.error.file == File322 ==>
      && AmountsConvert(f463, parse)
      && r.error.row < |f322|
      && r.error.cell == f322[r.error.row].amount
      && NormaliseAmount(r.error.cell, parse).None?
  {
    match NormaliseFile(f463, parse)
    case Failure(i) => Failure(ConversionError(File463, i, f463[i].amount))
    case Success(a) =>
      match NormaliseFile(f322, parse)
      case Failure(i) => Failure(ConversionError(File322, i, f322[i].amount))
      case Success(b) => Success(Reconciliation(MatchedRecords(a, b), UnmatchedRecords(a, b)))
  }

  /** On success, the result is computed from the two normalised extracts. */
  lemma ReconcileFilesValue(f463: seq<Record<Cell>>, f322: seq<Record<Cell>>, parse: string -> Option<real>)
    requires ReconcileFiles(f463, f322, parse).Success?
    ensures NormaliseFile(f463, parse).Success? && NormaliseFile(f322, parse).Success?
    ensures var a, b := NormaliseFile(f463, parse).value, NormaliseFile(f322, parse).value;
      ReconcileFiles(f463, f322, parse).value == Reconciliation(MatchedRecords(a, b), UnmatchedRecords(a, b))
  {
  }

  lemma {:induction false} MatchAllMembership(j: seq<(Row, Row)>, m: MatchedRow)
    ensures m in MatchAll(j) <==> exists p :: p in j && m == MatchRow(p.0, p.1)
  {
    if j != [] {
      MatchAllMembership(j[1..], m);
      assert j == [j[0]] + j[1..];
    }
  }

  lemma {:induction false} MatchAllKeys(j: seq<(Row, Row)>)
    ensures MatchedEmployees(MatchAll(j)) == LeftKeys(j)
  {
    if j != [] {
      MatchAllKeys(j[1..]);
    }
  }

  /** A record is matched exactly when it is projected from a 463 row and a 322
      row with the same EMPLOYEE. */
  lemma MatchedRecordsCharacterised(a: seq<Row>, b: seq<Row>, m: MatchedRow)
    ensures m in MatchedRecords(a, b)
            <==> exists l, r :: l in a && r in b && l.employee == r.employee && m == MatchRow(l, r)
  {
    MatchAllMembership(InnerJoin(a, b), m);
    if m in MatchedRecords(a, b) {
      var p :| p in InnerJoin(a, b) && m == MatchRow(p.0, p.1);
      InnerJoinMembership(a, b, p.0, p.1);
    }
    if exists l, r :: l in a && r in b && l.employee == r.employee && m == MatchRow(l, r) {
      var l, r :| l in a && r in b && l.employee == r.employee && m == MatchRow(l, r);
      InnerJoinMembership(a, b, l, r);
    }
  }

  /** Each matched record's FINAL AMOUNT is the sum of its two amounts; its NAME
      and 463 columns come from a 463 row and its 322 columns from a 322 row, both
      carrying the record's EMPLOYEE. */
  lemma MatchedRecordFields(a: seq<Row>, b: seq<Row>, m: MatchedRow)
    requires m in MatchedRecords(a, b)
    ensures m.finalAmount == m.amount463 + m.amount322
    ensures m.employee in KeysOf(a) && m.employee in KeysOf(b)
    ensures exists l :: l in a && l.employee == m.employee && l.name == m.name
                        && l.deduction == m.deduction463 && l.vendor == m.vendor463 && l.amount == m.amount463
    ensures exists r :: r in b && r.employee == m.employee
                        && r.deduction == m.deduction322 && r.vendor == m.vendor322 && r.amount == m.amount322
  {
    MatchedRecordsCharacterised(a, b, m);
    var l, r :| l in a && r in b && l.employee == r.employee && m == MatchRow(l, r);
    KeysOfMembership(a, m.employee);
    KeysOfMembership(b, m.employee);
  }

  /** Per EMPLOYEE, the matched output holds (count in 463) x (count in 322)
      records: duplicate keys give a cross product. */
  lemma MatchedKeyCount(a: seq<Row>, b: seq<Row>, k: Key)
    ensures multiset(MatchedEmployees(MatchedRecords(a, b)))[k] == CountKey(a, k) * CountKey(b, k)
  {
    MatchAllKeys(InnerJoin(a, b));
    InnerJoinKeyCount(a, b, k);
  }

  /** With unique keys in each extract, every EMPLOYEE common to both appears in
      exactly one matched record, and no other EMPLOYEE appears. */
  lemma MatchedUniqueKeys(a: seq<Row>, b: seq<Row>, k: Key)
    requires UniqueKeys(a) && UniqueKeys(b)
    ensures multiset(MatchedEmployees(MatchedRecords(a, b)))[k]
            == if k in KeysOf(a) && k in KeysOf(b) then 1 else 0
  {
    MatchedKeyCount(a, b, k);
    CountKeyPositive(a, k);
    CountKeyPositive(b, k);
    UniqueKeysCount(a, k);
    UniqueKeysCount(b, k);
    UnitProduct(CountKey(a, k), CountKey(b, k));
  }

  lemma UnitProduct(m: nat, n: nat)
    requires m <= 1 && n <= 1
    ensures m * n == if m > 0 && n > 0 then 1 else 0
  {
  }

  /** The unmatched output falls into two parts, 463 rows first: the first part
      holds each 463 row whose EMPLOYEE is absent from 322, as often as it occurs
      in 463, and nothing else; the second part does the same for 322. */
  lemma UnmatchedRecordsContent(a: seq<Row>, b: seq<Row>)
    ensures var u, n := UnmatchedRecords(a, b), |AntiJoin(a, b)|;
      && n <= |u|
      && (forall x {:trigger multiset(u[..n])[x]} ::
            multiset(u[..n])[x] == if x.employee in KeysOf(b) then 0 else multiset(a)[x])
      && (forall y {:trigger multiset(u[n..])[y]} ::
            multiset(u[n..])[y] == if y.employee in KeysOf(a) then 0 else multiset(b)[y])
  {
    var u, n := UnmatchedRecords(a, b), |AntiJoin(a, b)|;
    assert u[..n] == AntiJoin(a, b);
    assert u[n..] == AntiJoin(b, a);
  }

  /** Every EMPLOYEE of either extract lands on exactly one side: the matched keys
      are those in both extracts, the unmatched keys those in exactly one, so the
      two key sets are disjoint and together cover both extracts. */
  lemma KeysPartition(a: seq<Row>, b: seq<Row>)
    ensures MatchedKeysOf(MatchedRecords(a, b)) == KeysOf(a) * KeysOf(b)
    ensures KeysOf(UnmatchedRecords(a, b)) == (KeysOf(a) - KeysOf(b)) + (KeysOf(b) - KeysOf(a))
    ensures MatchedKeysOf(MatchedRecords(a, b)) !! KeysOf(UnmatchedRecords(a, b))
    ensures MatchedKeysOf(MatchedRecords(a, b)) + KeysOf(UnmatchedRecords(a, b)) == KeysOf(a) + KeysOf(b)
  {
    MatchedKeys(a, b);
    UnmatchedKeys(a, b);
    SetRegions(KeysOf(a), KeysOf(b));
  }

  /** Two sets split into their intersection and their symmetric difference. */
  lemma SetRegions(p: set<Key>, q: set<Key>)
    ensures (p * q) !! ((p - q) + (q - p))
    ensures (p * q) + ((p - q) + (q - p)) == p + q
  {
  }

  lemma MatchedKeys(a: seq<Row>, b: seq<Row>)
    ensures MatchedKeysOf(MatchedRecords(a, b)) == KeysOf(a) * KeysOf(b)
  {
    forall k ensures k in MatchedKeysOf(MatchedRecords(a, b)) <==> k in KeysOf(a) && k in KeysOf(b) {
      MatchedKeyCount(a, b, k);
      CountKeyPositive(a, k);
      CountKeyPositive(b, k);
      PositiveProduct(CountKey(a, k), CountKey(b, k));
    }
  }

  lemma UnmatchedKeys(a: seq<Row>, b: seq<Row>)
    ensures KeysOf(UnmatchedRecords(a, b)) == (KeysOf(a) - KeysOf(b)) + (KeysOf(b) - KeysOf(a))
  {
    KeysOfAppend(AntiJoin(a, b), AntiJoin(b, a));
    AntiJoinKeys(a, b);
    AntiJoinKeys(b, a);
  }

  /** With unique keys in each extract: no EMPLOYEE repeats within the matched or
      within the unmatched output, and the two outputs together hold one record per
      distinct EMPLOYEE of the two extracts. */
  lemma UniqueKeysCounts(a: seq<Row>, b: seq<Row>)
    requires UniqueKeys(a) && UniqueKeys(b)
    ensures Distinct(MatchedEmployees(MatchedRecords(a, b)))
    ensures UniqueKeys(UnmatchedRecords(a, b))
    ensures |MatchedRecords(a, b)| + |UnmatchedRecords(a, b)| == |KeysOf(a) + KeysOf(b)|
  {
    var ms, us := MatchedRecords(a, b), UnmatchedRecords(a, b);
    var ka, kb := KeysOf(a), KeysOf(b);
    forall k | k in MatchedEmployees(ms) ensures multiset(MatchedEmployees(ms))[k] <= 1 {
      MatchedUniqueKeys(a, b, k);
    }
    EmployeesAppend(AntiJoin(a, b), AntiJoin(b, a));
    forall k | k in Employees(us) ensures multiset(Employees(us))[k] <= 1 {
      AntiJoinKeyCount(a, b, k);
      AntiJoinKeyCount(b, a, k);
      CountKeyPositive(b, k);
    }
    DistinctCard(MatchedEmployees(ms));
    MatchedEmployeesLength(ms);
    KeysPartition(a, b);
    UniqueKeysCard(us);
    SetSplitCard(ka, kb);
  }

  /** The three regions of two sets add up to their union. */
  lemma SetSplitCard(p: set<Key>, q: set<Key>)
    ensures |p * q| + |(p - q) + (q - p)| == |p + q|
  {
    assert (p - q) !! (q - p);
    assert (p * q) !! ((p - q) + (q - p));
    assert p + q == (p * q) + ((p - q) + (q - p));
  }

  /** Matched record `m` is built from row `i` of the 463 extract and row `j` of
      the 322 extract: they share its EMPLOYEE, its NAME and 463 columns are row
      `i`'s, its 322 columns row `j`'s, both amounts are the converted AMOUNT
      cells, and its FINAL AMOUNT is their sum. */
  ghost predicate BuiltFrom(f463: seq<Record<Cell>>, f322: seq<Record<Cell>>,
                            parse: string -> Option<real>, m: MatchedRow, i: int, j: int)
  {
    && 0 <= i < |f463| && 0 <= j < |f322|
    && f463[i].employee == f322[j].employee == m.employee
    && m.name == f463[i].name
    && m.deduction463 == f463[i].deduction
    && m.vendor463 == f463[i].vendor
    && NormaliseAmount(f463[i].amount, parse) == Some(m.amount463)
    && m.deduction322 == f322[j].deduction
    && m.vendor322 == f322[j].vendor
    && NormaliseAmount(f322[j].amount, parse) == Some(m.amount322)
    && m.finalAmount == m.amount463 + m.amount322
  }

  /** Row `x` is row `i` of extract `f`, with its AMOUNT converted, and no row of
      the `other` extract carries its EMPLOYEE. */
  ghost predicate LoneRow(f: seq<Record<Cell>>, other: seq<Record<Cell>>,
                          parse: string -> Option<real>, x: Row, i: int)
  {
    && 0 <= i < |f|
    && f[i].employee !in KeysOf(other)
    && NormaliseAmount(f[i].amount, parse) == Some(x.amount)
    && x == WithAmount(f[i], x.amount)
  }

  /** End to end: a record is matched exactly when it is built from some 463 row
      and some 322 row with the same EMPLOYEE. */
  lemma ReconcileFilesMatched(f463: seq<Record<Cell>>, f322: seq<Record<Cell>>,
                              parse: string -> Option<real>, m: MatchedRow)
    requires ReconcileFiles(f463, f322, parse).Success?
    ensures m in ReconcileFiles(f463, f322, parse).value.matched
            <==> exists i, j :: BuiltFrom(f463, f322, parse, m, i, j)
  {
    ReconcileFilesValue(f463, f322, parse);
    var a, b := NormaliseFile(f463, parse).value, NormaliseFile(f322, parse).value;
    MatchedRecordsCharacterised(a, b, m);
    if m in MatchedRecords(a, b) {
      MatchedIsBuilt(f463, f322, a, b, parse, m);
    }
    if exists i, j :: BuiltFrom(f463, f322, parse, m, i, j) {
      var i, j :| BuiltFrom(f463, f322, parse, m, i, j);
      BuiltIsMatched(f463, f322, a, b, parse, m, i, j);
    }
  }

  lemma MatchedIsBuilt(f463: seq<Record<Cell>>, f322: seq<Record<Cell>>, a: seq<Row>, b: seq<Row>,
                       parse: string -> Option<real>, m: MatchedRow)
    requires NormaliseFile(f463, parse) == Success(a) && NormaliseFile(f322, parse) == Success(b)
    requires exists l, r :: l in a && r in b && l.employee == r.employee && m == MatchRow(l, r)
    ensures exists i, j :: BuiltFrom(f463, f322, parse, m, i, j)
  {
    var l, r :| l in a && r in b && l.employee == r.employee && m == MatchRow(l, r);
    var i :| 0 <= i < |a| && a[i] == l;
    var j :| 0 <= j < |b| && b[j] == r;
    assert BuiltFrom(f463, f322, parse, m, i, j);
  }

  lemma BuiltIsMatched(f463: seq<Record<Cell>>, f322: seq<Record<Cell>>, a: seq<Row>, b: seq<Row>,
                       parse: string -> Option<real>, m: MatchedRow, i: int, j: int)
    requires NormaliseFile(f463, parse) == Success(a) && NormaliseFile(f322, parse) == Success(b)
    requires BuiltFrom(f463, f322, parse, m, i, j)
    ensures exists l, r :: l in a && r in b && l.employee == r.employee && m == MatchRow(l, r)
  {
    assert a[i] in a && b[j] in b;
    assert m == MatchRow(a[i], b[j]);
  }

  /** End to end: a row is unmatched exactly when it is a 463 row whose EMPLOYEE
      no 322 row carries, or a 322 row whose EMPLOYEE no 463 row carries, with its
      own columns and its AMOUNT converted. */
  lemma ReconcileFilesUnmatched(f463: seq<Record<Cell>>, f322: seq<Record<Cell>>,
                                parse: string -> Option<real>, x: Row)
    requires ReconcileFiles(f463, f322, parse).Success?
    ensures x in ReconcileFiles(f463, f322, parse).value.unmatched
            <==> (exists i :: LoneRow(f463, f322, parse, x, i)) || (exists j :: LoneRow(f322, f463, parse, x, j))
  {
    ReconcileFilesValue(f463, f322, parse);
    var a, b := NormaliseFile(f463, parse).value, NormaliseFile(f322, parse).value;
    EmployeesPointwise(a, f463);
    EmployeesPointwise(b, f322);
    LoneRows(f463, f322, a, b, parse, x);
    LoneRows(f322, f463, b, a, parse, x);
  }

  lemma LoneRows(f: seq<Record<Cell>>, other: seq<Record<Cell>>, a: seq<Row>, b: seq<Row>,
                 parse: string -> Option<real>, x: Row)
    requires NormaliseFile(f, parse) == Success(a)
    requires KeysOf(b) == KeysOf(other)
    ensures x in AntiJoin(a, b) <==> exists i :: LoneRow(f, other, parse, x, i)
  {
    assert multiset(AntiJoin(a, b))[x] > 0 <==> x in a && x.employee !in KeysOf(b);
    if x in a {
      var i :| 0 <= i < |a| && a[i] == x;
      if x.employee !in KeysOf(b) {
        assert LoneRow(f, other, parse, x, i);
      }
    }
    if exists i :: LoneRow(f, other, parse, x, i) {
      var i :| LoneRow(f, other, parse, x, i);
      assert a[i] == x;
    }
  }

  /** The comma-formatted amount of the worked example: 463 row EMPLOYEE 1 with
      AMOUNT "1,000.00" and 322 row EMPLOYEE 1 with AMOUNT "500" reconcile to one
      matched record with FINAL AMOUNT 1500 and no unmatched record. */
  lemma ExampleCommaAmount(parse: string -> Option<real>)
    requires parse("1000.00") == Some(1000.0) && parse("500") == Some(500.0)
    ensures var r := ReconcileFiles(
                       [Record("1", "A", Text("1,000.00"), "V1", "M1", "D1", "X")],
                       [Record("1", "A", Text("500"), "V2", "M2", "D2", "Y")], parse);
      && r.Success?
      && r.value.matched == [MatchedRow("1", "A", 1500.0, "D1", "X", 1000.0, "D2", "Y", 500.0)]
      && r.value.unmatched == []
  {
    StripCommasExample();
    StripCommasFixesCleanText("500");
    SingleRows(Record("1", "A", Text("1,000.00"), "V1", "M1", "D1", "X"),
               Record("1", "A", Text("500"), "V2", "M2", "D2", "Y"), parse, 1000.0, 500.0);
  }

  /** A 463 row whose EMPLOYEE is missing from 322 (and the converse) appears
      once in the unmatched output, with its own columns, and nothing is matched. */
  lemma ExampleUnmatchedEmployee(parse: string -> Option<real>)
    requires parse("250") == Some(250.0) && parse("75") == Some(75.0)
    ensures var r := ReconcileFiles(
                       [Record("2", "B", Text("250"), "V1", "M1", "D1", "X")],
                       [Record("3", "C", Text("75"), "V2", "M2", "D2", "Y")], parse);
      && r.Success?
      && r.value.matched == []
      && r.value.unmatched == [Record("2", "B", 250.0, "V1", "M1", "D1", "X"),
                               Record("3", "C", 75.0, "V2", "M2", "D2", "Y")]
  {
    StripCommasFixesCleanText("250");
    StripCommasFixesCleanText("75");
    SingleRows(Record("2", "B", Text("250"), "V1", "M1", "D1", "X"),
               Record("3", "C", Text("75"), "V2", "M2", "D2", "Y"), parse, 250.0, 75.0);
  }

  /** Reconciling two one-row extracts: one matched record when the keys agree,
      otherwise both rows unmatched, 463 first. */
  lemma SingleRows(x: Record<Cell>, y: Record<Cell>, parse: string -> Option<real>, u: real, v: real)
    requires NormaliseAmount(x.amount, parse) == Some(u) && NormaliseAmount(y.amount, parse) == Some(v)
    ensures var r := ReconcileFiles([x], [y], parse);
      && r.Success?
      && r.value.matched == (if x.employee == y.employee then [MatchRow(WithAmount(x, u), WithAmount(y, v))] else [])
      && r.value.unmatched == (if x.employee == y.employee then [] else [WithAmount(x, u), WithAmount(y, v)])
  {
    SingleRowFile([x], parse, u);
    SingleRowFile([y], parse, v);
    ReconcileFilesValue([x], [y], parse);
    SingleRowsMatched(WithAmount(x, u), WithAmount(y, v));
    SingleRowsUnmatched(WithAmount(x, u), WithAmount(y, v));
  }

  lemma SingleRowsMatched(l: Row, r: Row)
    ensures MatchedRecords([l], [r]) == if l.employee == r.employee then [MatchRow(l, r)] else []
  {
    assert [l][1..] == [] && [r][1..] == [];
    assert WithKey([r], l.employee) == if l.employee == r.employee then [r] else [];
    assert InnerJoin([l], [r]) == PairWith(l, WithKey([r], l.employee)) + InnerJoin([], [r]);
    if l.employee == r.employee {
      assert PairWith(l, [r]) == [(l, r)] + PairWith(l, []);
      assert InnerJoin([l], [r]) == [(l, r)];
      assert MatchAll([(l, r)]) == [MatchRow(l, r)] + MatchAll([]);
    } else {
      assert InnerJoin([l], [r]) == [];
    }
  }

  lemma SingleRowsUnmatched(l: Row, r: Row)
    ensures UnmatchedRecords([l], [r]) == if l.employee == r.employee then [] else [l, r]
  {
    assert [l][1..] == [] && [r][1..] == [];
    assert Employees([l]) == [l.employee] && Employees([r]) == [r.employee];
    assert KeysOf([l]) == {l.employee} && KeysOf([r]) == {r.employee};
    assert AntiJoin([l], [r]) == (if l.employee == r.employee then [] else [l]) + AntiJoin([], [r]);
    assert AntiJoin([r], [l]) == (if l.employee == r.employee then [] else [r]) + AntiJoin([], [l]);
  }

  /** Normalising an extract of one row whose AMOUNT converts to `v`. */
  lemma SingleRowFile(f: seq<Record<Cell>>, parse: string -> Option<real>, v: real)
    requires |f| == 1 && NormaliseAmount(f[0].amount, parse) == Some(v)
    ensures NormaliseFile(f, parse) == Success([WithAmount(f[0], v)])
  {
    assert f[1..] == [];
    assert NormaliseFile(f[1..], parse) == Success([]);
    assert [WithAmount(f[0], v)] + [] == [WithAmount(f[0], v)];
  }
}
