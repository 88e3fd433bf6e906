/**
 * The per-bucket table of the HTML report (`generateHTMLTable`) and the
 * sign rule for summary figures (`getBalanceClass`). Tables are records; the
 * markup around them is not modelled.
 */
module HtmlReport {
  import opened Wrappers
  import opened Decimal
  import opened Currency
  import opened Category
  import opened Accounts

  /** The CSS class of a figure. */
  datatype CellClass = Positive | Negative {
    function Name(): string {
      match this
      case Positive => "positive"
      case Negative => "negative"
    }
  }

  const Placeholder: string := "No accounts found in this category."

  const Columns: seq<string> := ["Name", "Currency", "Balance", "Category", "Comment"]

  datatype TableRow = TableRow(
    name: string,
    currency: string,
    balanceClass: CellClass,
    balance: string,
    category: string,
    comment: string)

  /** Either the placeholder paragraph or a table with one row per account. */
  datatype Table = Empty(message: string) | Rows(columns: seq<string>, rows: seq<TableRow>)

  /** The balance cell is "negative" for a liability, whatever the balance's sign. */
  function RowOf(a: Account): (r: TableRow)
    ensures r.balanceClass == Negative <==> a.isLiability
    ensures ParseFixed(r.balance) == Some(Fixed(a.balance, ExponentOf(a.currency)))
    ensures r.name == a.name && r.currency == a.currency && r.comment == a.comment
    ensures CodeOf(r.category) == if IsNamed(a.category) then Some(a.category) else None
    ensures !IsNamed(a.category) ==> r.category == Unknown
  {
    LabelRoundTrip(a.category);
    TableRow(
      a.name, a.currency,
      if a.isLiability then Negative else Positive,
      ConvertBalance(a.balance, a.currency),
      Label(a.category),
      a.comment)
  }

  /** `generateHTMLTable`. */
  function TableOf(accounts: seq<Account>): (t: Table)
    ensures t.Empty? <==> |accounts| == 0
    ensures t.Empty? ==> t.message == Placeholder
    ensures t.Rows? ==> t.columns == Columns && |t.rows| == |accounts|
    ensures t.Rows? ==> forall i :: 0 <= i < |accounts| ==> t.rows[i] == RowOf(accounts[i])
  {
    if |accounts| == 0 then Empty(Placeholder)
    else Rows(Columns, seq(|accounts|, i requires 0 <= i < |accounts| => RowOf(accounts[i])))
  }

  /** `getBalanceClass`: "positive" for zero and above, "negative" below zero. */
  function BalanceClass(balance: real): (c: CellClass)
    ensures c == Positive <==> balance >= 0.0
  {
    if balance >= 0.0 then Positive else Negative
  }

  /** A table row is marked negative exactly when its account is a liability. */
  lemma TableClasses(accounts: seq<Account>, i: nat)
    requires i < |accounts|
    ensures TableOf(accounts).Rows?
    ensures TableOf(accounts).rows[i].balanceClass.Name() == if accounts[i].isLiability then "negative" else "positive"
  {
  }

  /**
   * For an account whose balance has the sign its flag suggests (liabilities
   * below zero, everything else at or above zero), the flag-based class of the
   * table and the sign-based class of the summary agree on its major-unit amount.
   */
  lemma FlagClassMatchesSign(a: Account)
    requires a.isLiability <==> a.balance < 0
    ensures RowOf(a).balanceClass == BalanceClass(Fixed(a.balance, ExponentOf(a.currency)).Value())
  {
    var p := Pow10(ExponentOf(a.currency)) as real;
    if a.balance < 0 {
      assert (a.balance as real) / p < 0.0;
    } else {
      assert (a.balance as real) / p >= 0.0;
    }
  }
}
