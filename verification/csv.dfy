/**
 * The rows `exportToCSV` builds in memory before writing them (main.go:387-409):
 * a fixed header, then one eight-field row per account. `DecodeRow` reads a row
 * back into the account facts it carries, so the row contents are stated as a
 * round trip rather than field by field.
 */
module CsvExport {
  import opened Wrappers
  import opened Decimal
  import opened Currency
  import opened Category
  import opened Accounts

  const Header: seq<string> := ["ID", "Name", "Currency", "Balance", "Category", "IsAsset", "IsLiability", "Comment"]

  /** Reads "true" or "false"; any other text is not a flag. */
  function ParseBool(s: string): (r: Option<bool>)
    ensures r.Some? <==> s == "true" || s == "false"
  {
    if s == "true" then Some(true) else if s == "false" then Some(false) else None
  }

  /** `fmt.Sprintf("%t", b)`: one of the two flag words, and the one that reads back to b. */
  function BoolText(b: bool): (s: string)
    ensures s == "true" || s == "false"
    ensures ParseBool(s) == Some(b)
  {
    if b then "true" else "false"
  }

  /** What a data row says about its account: the category only when it has a name. */
  datatype RowView = RowView(
    id: string,
    name: string,
    currency: string,
    amount: Fixed,
    category: Option<int>,
    isAsset: bool,
    isLiability: bool,
    comment: string)

  function ViewOf(a: Account): RowView {
    RowView(
      a.id, a.name, a.currency,
      Fixed(a.balance, ExponentOf(a.currency)),
      if IsNamed(a.category) then Some(a.category) else None,
      a.isAsset, a.isLiability, a.comment)
  }

  /** Reads a data row; None when it is not eight fields or a field does not parse. */
  function DecodeRow(row: seq<string>): Option<RowView> {
    if |row| != |Header| then None
    else
      match (ParseFixed(row[3]), ParseBool(row[5]), ParseBool(row[6]))
      case (Some(amount), Some(asset), Some(liability)) =>
        if row[4] == Unknown then
          Some(RowView(row[0], row[1], row[2], amount, None, asset, liability, row[7]))
        else if CodeOf(row[4]).Some? then
          Some(RowView(row[0], row[1], row[2], amount, CodeOf(row[4]), asset, liability, row[7]))
        else None
      case _ => None
  }

  /** One data row: ID, Name, Currency, converted Balance, Category label, the two flags, Comment. */
  function Row(a: Account): (r: seq<string>)
    ensures |r| == |Header|
    ensures DecodeRow(r) == Some(ViewOf(a))
  {
    var balance := ConvertBalance(a.balance, a.currency);
    var category := Label(a.category);
    LabelRoundTrip(a.category);
    LabelsDistinct();
    DecodeFields(a.id, a.name, a.currency, balance, category, BoolText(a.isAsset), BoolText(a.isLiability), a.comment, ViewOf(a));
    [a.id, a.name, a.currency, balance, category, BoolText(a.isAsset), BoolText(a.isLiability), a.comment]
  }

  /** A row whose fields each read back to the corresponding part of `v` decodes to `v`. */
  lemma DecodeFields(id: string, name: string, currency: string, balance: string, category: string,
                     asset: string, liability: string, comment: string, v: RowView)
    requires id == v.id && name == v.name && currency == v.currency && comment == v.comment
    requires ParseFixed(balance) == Some(v.amount)
    requires ParseBool(asset) == Some(v.isAsset) && ParseBool(liability) == Some(v.isLiability)
    requires category == Unknown <==> v.category.None?
    requires v.category.Some? ==> CodeOf(category) == v.category
    ensures DecodeRow([id, name, currency, balance, category, asset, liability, comment]) == Some(v)
  {
    var r := [id, name, currency, balance, category, asset, liability, comment];
    assert r[3] == balance && r[4] == category && r[5] == asset && r[6] == liability;
  }

  /** An uncategorised USD asset of 1050 minor units exports as "10.50", "Unknown", "true", "false". */
  lemma UsdCentsRow(a: Account)
    requires a.balance == 1050 && a.currency == "USD" && a.category == 0 && a.isAsset && !a.isLiability
    ensures Row(a) == [a.id, a.name, "USD", "10.50", "Unknown", "true", "false", a.comment]
  {
    ConvertUsdCents();
    assert Label(0) == "Unknown";
  }

  /** `csvData`: the header row followed by one row per account, in input order. */
  function CsvData(accounts: seq<Account>): (data: seq<seq<string>>)
    ensures |data| == |accounts| + 1
    ensures data[0] == Header
    ensures forall i :: 0 <= i < |data| ==> |data[i]| == |Header|
    ensures forall i :: 0 <= i < |accounts| ==> DecodeRow(data[i + 1]) == Some(ViewOf(accounts[i]))
  {
    [Header] + seq(|accounts|, i requires 0 <= i < |accounts| => Row(accounts[i]))
  }

  /** Reads a whole table back: the header must match exactly, then every row must decode. */
  function DecodeData(data: seq<seq<string>>): Option<seq<RowView>> {
    if |data| == 0 || data[0] != Header then None
    else DecodeRows(data[1..])
  }

  function DecodeRows(rows: seq<seq<string>>): (r: Option<seq<RowView>>)
    ensures r.Some? ==> |r.value| == |rows|
  {
    if |rows| == 0 then Some([])
    else match (DecodeRow(rows[0]), DecodeRows(rows[1..]))
      case (Some(v), Some(vs)) => Some([v] + vs)
      case _ => None
  }

  function Views(accounts: seq<Account>): (r: seq<RowView>)
    ensures |r| == |accounts|
    ensures forall i :: 0 <= i < |accounts| ==> r[i] == ViewOf(accounts[i])
  {
    seq(|accounts|, i requires 0 <= i < |accounts| => ViewOf(accounts[i]))
  }

  /** Re-reading the exported table gives back, in order, one view per account. */
  lemma CsvRoundTrip(accounts: seq<Account>)
    ensures DecodeData(CsvData(accounts)) == Some(Views(accounts))
  {
    var data := CsvData(accounts);
    var views := Views(accounts);
    assert forall i :: 0 <= i < |views| ==> DecodeRow(data[1..][i]) == Some(views[i]) by {
      forall i | 0 <= i < |views| ensures DecodeRow(data[1..][i]) == Some(views[i]) {
        assert data[1..][i] == data[i + 1];
      }
    }
    RowsRoundTrip(data[1..], views);
  }

  lemma {:induction false} RowsRoundTrip(rows: seq<seq<string>>, views: seq<RowView>)
    requires |rows| == |views|
    requires forall i :: 0 <= i < |views| ==> DecodeRow(rows[i]) == Some(views[i])
    ensures DecodeRows(rows) == Some(views)
    decreases |rows|
  {
    if |rows| > 0 {
      var head, tail := views[0], views[1..];
      forall i | 0 <= i < |tail| ensures DecodeRow(rows[1..][i]) == Some(tail[i]) {
        assert rows[1..][i] == rows[i + 1];
      }
      RowsRoundTrip(rows[1..], tail);
      assert DecodeRow(rows[0]) == Some(head);
      assert views == [head] + tail;
    }
  }
}
