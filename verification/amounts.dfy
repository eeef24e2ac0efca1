/** Normalisation of the AMOUNT column (Functions.py lines 20-21): every thousands
    separator is removed from a textual amount, and the remaining text is converted
    to a number. */
module Amounts {
  import opened Results

  /** The separator character deleted from AMOUNT texts. */
  const Separator: char := ','

  /** An AMOUNT cell as the file reader delivers it: a number that was already
      numeric in the file, or a text such as "1,000.00". The regular-expression
      replacement only rewrites texts; numeric cells pass through untouched. */
  datatype Cell = Text(text: string) | Number(value: real)

  /** `s` is obtained from `t` by deleting zero or more characters, keeping the
      order of the ones that remain. */
  ghost predicate IsSubsequence(s: string, t: string)
    decreases |t|
  {
    if s == [] then true
    else if t == [] then false
    else if s[0] == t[0] then IsSubsequence(s[1..], t[1..])
    else IsSubsequence(s, t[1..])
  }

  /** Every `,` of `s` removed. */
  function StripCommas(s: string): (r: string)
    ensures Separator !in r
    ensures IsSubsequence(r, s)
    ensures forall c {:trigger multiset(r)[c]} :: c != Separator ==> multiset(r)[c] == multiset(s)[c]
  {
    if s == [] then []
    else
      assert s == [s[0]] + s[1..];
      if s[0] == Separator then StripCommas(s[1..])
      else [s[0]] + StripCommas(s[1..])
  }

  /** A text without separators is left as it is. */
  lemma {:induction false} StripCommasFixesCleanText(s: string)
    requires Separator !in s
    ensures StripCommas(s) == s
  {
    if s != [] {
      StripCommasFixesCleanText(s[1..]);
    }
  }

  /** Stripping an already stripped text changes nothing. */
  lemma {:induction false} StripCommasIdempotent(s: string)
    ensures StripCommas(StripCommas(s)) == StripCommas(s)
  {
    StripCommasFixesCleanText(StripCommas(s));
  }

  /** Stripping works piecewise: the text is cut anywhere, each piece stripped,
      and the results joined in the same order. Together with the single-character
      case this determines the operation completely. */
  lemma {:induction false} StripCommasAppend(s: string, t: string)
    ensures StripCommas(s + t) == StripCommas(s) + StripCommas(t)
  {
    if s == [] {
      assert s + t == t;
    } else {
      assert (s + t)[1..] == s[1..] + t;
      StripCommasAppend(s[1..], t);
    }
  }

  /** On a single character: a separator disappears, anything else is kept. */
  lemma StripCommasSingle(c: char)
    ensures StripCommas([c]) == if c == Separator then [] else [c]
  {
    assert [c][1..] == [];
  }

  /** The numeric value of an AMOUNT cell, or None when its stripped text does not
      convert. `parse` stands for the float conversion of the cleaned text. */
  function NormaliseAmount(c: Cell, parse: string -> Option<real>): (r: Option<real>)
    ensures c.Number? ==> r == Some(c.value)
    ensures c.Text? && Separator !in c.text ==> r == parse(c.text)
  {
    match c
    case Number(v) => Some(v)
    case Text(t) =>
      if Separator in t then parse(StripCommas(t))
      else StripCommasFixesCleanText(t); parse(t)
  }

  /** Normalisation ignores separators: a separator inserted anywhere into an
      AMOUNT text does not change its value. */
  lemma NormaliseAmountIgnoresSeparators(p: string, q: string, parse: string -> Option<real>)
    ensures NormaliseAmount(Text(p + [Separator] + q), parse) == NormaliseAmount(Text(p + q), parse)
  {
    StripCommasAppend(p + [Separator], q);
    StripCommasAppend(p, [Separator]);
    StripCommasSingle(Separator);
    StripCommasAppend(p, q);
    assert StripCommas(p + [Separator]) == StripCommas(p) + [];
    assert StripCommas(p) + [] == StripCommas(p);
    assert (p + [Separator] + q)[|p|] == Separator;
    if Separator !in p + q {
      StripCommasFixesCleanText(p + q);
    }
  }

  /** Normalisation is idempotent: a text already stripped of separators has the
      same value as the original text. */
  lemma NormaliseAmountIdempotent(t: string, parse: string -> Option<real>)
    ensures NormaliseAmount(Text(StripCommas(t)), parse) == NormaliseAmount(Text(t), parse)
  {
    StripCommasIdempotent(t);
    if Separator !in t {
      StripCommasFixesCleanText(t);
    }
  }

  /** The comma-formatted amount of the worked example loses its separator. */
  lemma StripCommasExample()
    ensures StripCommas("1,000.00") == "1000.00"
  {
    StripCommasDigits();
    assert "1,000.00"[1..] == ",000.00";
    assert ",000.00"[1..] == "000.00";
  }

  lemma StripCommasDigits()
    ensures StripCommas("000.00") == "000.00"
  {
    StripCommasFixesCleanText("000.00");
  }
}
