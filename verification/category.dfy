/** `AccountCategory` and its `String` method: codes 1..9 have names, every other code is "Unknown". */
module Category {
  import opened Wrappers

  const Cash: int := 1
  const CheckingAccount: int := 2
  const CreditCard: int := 3
  const VirtualAccount: int := 4
  const DebtAccount: int := 5
  const Receivables: int := 6
  const InvestmentAccount: int := 7
  const SavingsAccount: int := 8
  const CertificateOfDeposit: int := 9

  const Unknown: string := "Unknown"

  /** The names of codes 1..9, in code order. */
  const Labels: seq<string> := [
    "Cash", "Checking Account", "Credit Card", "Virtual Account", "Debt Account",
    "Receivables", "Investment Account", "Savings Account", "Certificate of Deposit"
  ]

  predicate IsNamed(code: int) {
    Cash <= code <= CertificateOfDeposit
  }

  /** `AccountCategory.String`. */
  function Label(code: int): (s: string)
    ensures IsNamed(code) ==> s == Labels[code - 1]
    ensures !IsNamed(code) ==> s == Unknown
  {
    if code == Cash then "Cash"
    else if code == CheckingAccount then "Checking Account"
    else if code == CreditCard then "Credit Card"
    else if code == VirtualAccount then "Virtual Account"
    else if code == DebtAccount then "Debt Account"
    else if code == Receivables then "Receivables"
    else if code == InvestmentAccount then "Investment Account"
    else if code == SavingsAccount then "Savings Account"
    else if code == CertificateOfDeposit then "Certificate of Deposit"
    else Unknown
  }

  /** Reads a label back to its code; "Unknown" and any other text give None. */
  function CodeOf(name: string): (r: Option<int>)
    ensures r.Some? ==> IsNamed(r.value) && Labels[r.value - 1] == name
    ensures r.None? ==> name !in Labels
  {
    FindLabel(name, 0)
  }

  function FindLabel(name: string, i: nat): (r: Option<int>)
    requires i <= |Labels|
    ensures r.Some? ==> i < r.value <= |Labels| && Labels[r.value - 1] == name
    ensures r.None? ==> name !in Labels[i..]
    decreases |Labels| - i
  {
    if i == |Labels| then None
    else if Labels[i] == name then Some(i + 1)
    else FindLabel(name, i + 1)
  }

  /** No two codes share a name, and no name is "Unknown". */
  lemma LabelsDistinct()
    ensures forall i, j :: 0 <= i < j < |Labels| ==> Labels[i] != Labels[j]
    ensures Unknown !in Labels
  {
  }

  /** The name of a named code reads back to that code; any other code gets "Unknown", which reads back to nothing. */
  lemma LabelRoundTrip(code: int)
    ensures IsNamed(code) ==> CodeOf(Label(code)) == Some(code)
    ensures !IsNamed(code) ==> Label(code) == Unknown && CodeOf(Label(code)) == None
  {
    LabelsDistinct();
  }

  /** Two codes have the same label only when both are unnamed or they are equal. */
  lemma LabelInjective(a: int, b: int)
    requires Label(a) == Label(b)
    ensures a == b || (!IsNamed(a) && !IsNamed(b))
  {
    LabelRoundTrip(a);
    LabelRoundTrip(b);
  }
}
