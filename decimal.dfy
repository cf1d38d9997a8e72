/**
 * Decimal text of a `usize` (64-bit target): `to_string` / `Display` and `str::parse`, as used by
 * the `DocId` wrappers of both servers.
 */
module Decimal {
  import opened Results

  /** One more than `usize::MAX` on a 64-bit target. */
  const UsizeLimit: nat := 0x1_0000_0000_0000_0000

  datatype ParseIntError = Empty | InvalidDigit | PosOverflow

  predicate IsDigit(c: char) { '0' <= c <= '9' }

  function DigitVal(c: char): (d: nat)
    requires IsDigit(c)
    ensures d < 10
  {
    c as int - '0' as int
  }

  function DigitChar(d: nat): (c: char)
    requires d < 10
    ensures IsDigit(c) && DigitVal(c) == d
  {
    ('0' as int + d) as char
  }

  /** `n.to_string()`: decimal digits, most significant first, without leading zeros. */
  function Show(n: nat): (s: string)
    ensures |s| >= 1 && forall i :: 0 <= i < |s| ==> IsDigit(s[i])
    ensures s[0] == '0' ==> s == "0"
  {
    if n < 10 then [DigitChar(n)] else Show(n / 10) + [DigitChar(n % 10)]
  }

  /**
   * `s.parse::<usize>()`: an optional leading `+`, then at least one digit; digits are read left
   * to right, a non-digit fails `InvalidDigit`, a value past `usize::MAX` fails `PosOverflow`.
   */
  function Parse(s: string): (r: Result<nat, ParseIntError>)
    ensures r == Err(Empty) <==> s == []
    ensures r.Ok? ==> r.value < UsizeLimit
  {
    if s == [] then Err(Empty)
    else if (s[0] == '+' || s[0] == '-') && |s| == 1 then Err(InvalidDigit)
    else if s[0] == '+' then Accumulate(0, s[1..])
    else Accumulate(0, s)
  }

  function Step(acc: nat, c: char): (r: Result<nat, ParseIntError>)
    ensures r.Ok? ==> IsDigit(c) && r.value < UsizeLimit
    ensures r != Err(Empty)
  {
    if !IsDigit(c) then Err(InvalidDigit)
    else if acc * 10 + DigitVal(c) >= UsizeLimit then Err(PosOverflow)
    else Ok(acc * 10 + DigitVal(c))
  }

  /**
   * The digit loop from the accumulated value `acc` on: it succeeds only on digits, never
   * reports `Empty`, and a value that starts in range stays in range.
   */
  function Accumulate(acc: nat, s: string): (r: Result<nat, ParseIntError>)
    ensures r.Ok? ==> forall i :: 0 <= i < |s| ==> IsDigit(s[i])
    ensures r.Ok? && acc < UsizeLimit ==> r.value < UsizeLimit
    ensures r != Err(Empty)
    decreases |s|
  {
    if s == [] then Ok(acc)
    else match Step(acc, s[0])
      case Err(e) => Err(e)
      case Ok(v) =>
        assert forall i :: 1 <= i < |s| ==> s[i] == s[1..][i - 1];
        Accumulate(v, s[1..])
  }

  lemma {:induction false} AccumulateSnoc(acc: nat, s: string, c: char)
    ensures Accumulate(acc, s + [c]) ==
      match Accumulate(acc, s)
      case Err(e) => Err(e)
      case Ok(v) => Step(v, c)
    decreases |s|
  {
    if s == [] {
      assert s + [c] == [c];
    } else {
      assert (s + [c])[1..] == s[1..] + [c];
      match Step(acc, s[0]) {
        case Err(e) =>
        case Ok(v) => AccumulateSnoc(v, s[1..], c);
      }
    }
  }

  lemma {:induction false} AccumulateShow(n: nat)
    requires n < UsizeLimit
    ensures Accumulate(0, Show(n)) == Ok(n)
  {
    if n < 10 {
      assert Show(n)[1..] == [];
    } else {
      AccumulateShow(n / 10);
      AccumulateSnoc(0, Show(n / 10), DigitChar(n % 10));
    }
  }

  /** Parsing the decimal text of an id gives the id back. */
  lemma ParseShow(n: nat)
    requires n < UsizeLimit
    ensures Parse(Show(n)) == Ok(n)
  {
    AccumulateShow(n);
  }

  /** Only an optional `+` followed by digits parses. */
  lemma ParseAccepts(s: string)
    requires Parse(s).Ok?
    ensures forall i :: 0 <= i < |s| && (i > 0 || s[0] != '+') ==> IsDigit(s[i])
  {
    if s[0] == '+' {
      assert forall i :: 1 <= i < |s| ==> s[i] == s[1..][i - 1];
    }
  }
}
