# Reconciling the 463 and 322 payroll extracts

This project models `reconcile_files` from `Functions.py` in Dafny. The function
reconciles two employee payroll extracts, "463" and "322", in three steps:

- **Normalise amounts.** It removes every thousands separator `,` from the AMOUNT
  column of each extract and converts the result to a number.
- **Build the matched records.** It inner-joins the extracts on EMPLOYEE. Each
  joined pair becomes one matched record with FINAL AMOUNT = Amount (463) +
  Amount (322). The record carries NAME and the deduction, vendor and amount of
  the 463 row, then the deduction, vendor and amount of the 322 row.
- **Build the unmatched records.** It runs a full outer join with a membership
  indicator. The rows tagged left-only or right-only are the rows with no
  partner. They are relabelled into the seven input columns and concatenated,
  463 rows first.

The model is purely functional:

- `amounts.dfy` (module `Amounts`) removes separators and normalises an AMOUNT cell.
- `records.dfy` (module `Records`) defines the row datatypes and key-level views.
  These are the key column, the key set, per-key counts and "unique keys".
- `joins.dfy` (module `Joins`) gives the relational meaning of the two merges:
  - the inner equi-join (nested-loop order, cross product on duplicate keys);
  - the anti-join;
  - the full outer join with its indicator, as the datatype `Joined = Both | LeftOnly | RightOnly`.
- `reconcile.dfy` (module `Reconcile`) contains the reconciliation itself, the
  properties of its two outputs, end-to-end statements from the raw extracts,
  and two worked examples.
- `results.dfy` (module `Results`) defines `Option` and `Result`.

The float conversion `astype(float)` is a parameter, `parse: string -> Option<real>`,
applied to the stripped text. `None` means the conversion raises. A raised
conversion makes the whole reconciliation fail, and this is modelled as a `Result`
failure that names the extract, the row and the cell. Numeric cells pass through
the separator removal unchanged, as they do with a regular-expression replace.
Amounts are exact reals.

Both merges are dask `dd.merge` calls on partitioned frames, and dask does not
promise an order for the rows of a merge across its partitions. The model fixes
one order (rows of the 463 extract in order, each with its partners in 322
order), but every property about join contents is stated with multisets, key
counts or membership. The one order the code does fix — the 463 part of the
unmatched output before the 322 part — is stated exactly.

The program describes its result as "the final amount for each matching
employee" (Main.py:15). With EMPLOYEE unique within each extract this is what
the merge delivers, and the model proves it (`Reconcile.MatchedUniqueKeys`,
`Reconcile.UniqueKeysCounts`). When an EMPLOYEE is repeated within one extract,
the merge instead yields a cross product of its rows; the model follows the
code and proves the exact count per key: its count in 463 times its count in
322 (`Reconcile.MatchedKeyCount`).

## Model

| member | source | states |
|---|---|---|
| Amounts.StripCommas | Functions.py:20-21 | the stripped AMOUNT text contains no `,`, is a subsequence of the original, and keeps every other character with its multiplicity |
| Amounts.StripCommasFixesCleanText | Functions.py:20-21 | a text without separators is left unchanged |
| Amounts.StripCommasIdempotent | Functions.py:20-21 | stripping twice equals stripping once |
| Amounts.StripCommasAppend | Functions.py:20-21 | every occurrence is removed, not just the first: stripping a concatenation is the concatenation of the stripped pieces |
| Amounts.NormaliseAmount | Functions.py:20-21 | a numeric cell keeps its value; a text cell without separators converts exactly as written (with `Amounts.NormaliseAmountIgnoresSeparators` for texts that have them) |
| Amounts.NormaliseAmountIgnoresSeparators | Functions.py:20-21 | inserting a `,` anywhere in an AMOUNT text does not change its converted value |
| Amounts.NormaliseAmountIdempotent | Functions.py:20-21 | normalising an already-clean amount text gives the same value |
| Reconcile.NormaliseFile | Functions.py:20-21 | an extract normalises exactly when every AMOUNT converts; the result then has the same rows with the converted amounts and every other column kept; otherwise the reported row is the first that fails |
| Joins.WithKey | Functions.py:24 | the partners of a key are exactly the rows carrying that key, with their multiplicities; there are as many as the key's count |
| Joins.InnerJoin | Functions.py:24 | every joined pair combines a 463 row and a 322 row with equal EMPLOYEE (the converse and the counts are `Joins.InnerJoinMultiplicity` and `Joins.InnerJoinMembership`) |
| Joins.InnerJoinMultiplicity | Functions.py:24 | a pair (l, r) occurs in the join (count of l) x (count of r) times when their EMPLOYEEs agree, and never otherwise |
| Joins.InnerJoinMembership | Functions.py:24 | a pair is joined if and only if l is a 463 row, r is a 322 row, and their EMPLOYEEs are equal |
| Joins.InnerJoinKeyCount | Functions.py:24 | per EMPLOYEE, the join holds (count in 463) x (count in 322) pairs |
| Joins.AntiJoin | Functions.py:46-53 | the rows without partner are exactly the rows whose EMPLOYEE is absent from the other extract, with their multiplicities |
| Joins.AntiJoinKeys | Functions.py:46-53 | the keys without partner are the keys of one extract minus those of the other |
| Joins.AntiJoinKeyCount | Functions.py:46-53 | the anti-join keeps a key's full count when the other extract lacks the key, and drops it otherwise |
| Joins.LeftOuter | Functions.py:43 | the part of the outer join that the 463 rows produce has the 463 anti-join as its left-only rows, no right-only rows, and the inner join as its rows present on both sides |
| Joins.RightRemainder | Functions.py:43 | the part of the outer join that only the 322 rows produce has the 322 anti-join as its right-only rows and nothing else |
| Joins.OuterJoin | Functions.py:43-53 | in the outer join, the left-only rows are the 463 anti-join, the right-only rows are the 322 anti-join, and the rows on both sides are exactly the inner join |
| Joins.LeftOnlyRows | Functions.py:46 | selecting `_merge == 'left_only'` keeps each row exactly as often as the join holds it tagged left-only |
| Joins.RightOnlyRows | Functions.py:51 | selecting `_merge == 'right_only'` keeps each row exactly as often as the join holds it tagged right-only |
| Reconcile.ReconcileFiles | Functions.py:8-58 | reconciliation succeeds if and only if every AMOUNT of both extracts converts; on failure it names a 463 cell that fails, or else a 322 cell that fails |
| Reconcile.MatchedRecords | Functions.py:24-36 | one matched record per joined pair; each has FINAL AMOUNT = Amount (463) + Amount (322) and an EMPLOYEE present in both extracts |
| Reconcile.MatchedRecordsCharacterised | Functions.py:24-36 | a record is matched if and only if it is projected from some 463 row and some 322 row with the same EMPLOYEE |
| Reconcile.MatchedRecordFields | Functions.py:25-36 | in every matched record, FINAL AMOUNT = Amount (463) + Amount (322); its EMPLOYEE occurs in both extracts; NAME and the 463 columns come from a 463 row and the 322 columns from a 322 row with that EMPLOYEE |
| Reconcile.MatchedKeyCount | Functions.py:24-36 | per EMPLOYEE, the matched output has (count in 463) x (count in 322) records |
| Reconcile.MatchedUniqueKeys | Functions.py:24-36 | with unique keys in each extract, each common EMPLOYEE appears in exactly one matched record and no other EMPLOYEE appears |
| Reconcile.UnmatchedRecords | Functions.py:43-56 | the unmatched output derived from the outer-join indicator is the 463 rows without partner followed by the 322 rows without partner |
| Reconcile.UnmatchedRecordsContent | Functions.py:46-56 | the first part of the unmatched output holds exactly the 463 rows whose EMPLOYEE is absent from 322, with their multiplicities; the second part holds the same for 322 |
| Reconcile.KeysPartition | Functions.py:24-56 | matched keys = keys in both extracts; unmatched keys = keys in exactly one; the two sets are disjoint and together cover every key of both extracts |
| Reconcile.UniqueKeysCounts | Functions.py:24-56 | with unique keys per extract, neither output repeats an EMPLOYEE, and the matched count plus the unmatched count equals the number of distinct EMPLOYEEs across both extracts |
| Reconcile.ReconcileFilesMatched | Functions.py:20-36 | end to end from the raw extracts: a record is matched if and only if some 463 row and some 322 row share its EMPLOYEE; its columns are theirs with the converted amounts, and FINAL AMOUNT is the sum |
| Reconcile.ReconcileFilesUnmatched | Functions.py:20-56 | end to end: a row is unmatched if and only if it is a 463 row whose EMPLOYEE no 322 row carries, or the converse, with its own columns and its amount converted |
| Reconcile.SingleRows | Functions.py:24-56 | two one-row extracts give one matched record when their keys agree, and otherwise both rows unmatched, 463 first |
| Reconcile.ExampleCommaAmount | Functions.py:20-36 | AMOUNT "1,000.00" (463) and "500" (322) for EMPLOYEE 1 give one matched record with FINAL AMOUNT 1500 and no unmatched record |
| Reconcile.ExampleUnmatchedEmployee | Functions.py:43-56 | EMPLOYEE 2 only in 463 and EMPLOYEE 3 only in 322 give no matched record and two unmatched rows, each with its own columns |

## Left out

- File reading and the CSV/Excel dispatch (Functions.py:10-18) are I/O and
  foreign parsers. The model starts from the parsed rows.
- The float conversion `astype(float)` is floating-point parsing. It is the
  parameter `parse`, applied to the stripped text. Amounts are exact reals, so
  the rounding of the FINAL AMOUNT addition is not modelled.
- NaN and missing values are not modelled: their propagation through the sum,
  and pandas matching NaN keys with each other. Both belong to the library's
  floats.
- dask partitioning, lazy `.compute()` and internal parallelism
  (Functions.py:13, 18, 38, 56) are execution details. Because evaluation is
  lazy, which failing AMOUNT surfaces first is unspecified. The model reports
  the first failing row of the 463 extract, or, if there is none, of the 322
  extract.
- Row order inside the merges is not modelled: dask does not promise one for
  `dd.merge` across partitions. Contracts about join contents are stated up to
  permutation (multisets, counts, membership). The chosen order is only a
  witness.
- The type of the EMPLOYEE key is not modelled. Keys are text compared by
  equality, and both extracts are assumed to hold EMPLOYEE with the same type.
  pandas' key handling is left out: it raises ValueError when EMPLOYEE is
  numeric in one extract and text in the other, and it matches integer 1 with
  float 1.0.
- Schema errors are not modelled. Both extracts are assumed to carry the same
  seven columns: EMPLOYEE, NAME, AMOUNT, VOTE, MINISTRY, DEDUCTION and VENDOR
  NAME. A column missing from one side (the suffixed names then do not exist,
  so pandas raises KeyError) is outside the model. So are extra columns, which
  the projections drop anyway.
- dtype changes caused by the outer join are not modelled. Integer columns
  such as VOTE can become floats once the join introduces missing values. The
  other columns are modelled as text.
- `save_files` (Functions.py:60-68) is not modelled: it writes files with
  wall-clock timestamps.
- `ReconcileDocs` (Functions.py:70-101) and Main.py are not modelled: they are
  the Streamlit user interface, uploads, download buttons and Excel export.
