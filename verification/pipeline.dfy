/**
 * The order of `main` once the settings are known: resolve the configuration,
 * fetch the accounts, split them, build both CSV tables and both HTML tables,
 * and decide about the mail. The two HTTP calls are one input, `fetched`: the
 * account list the server returned, or the reason the authorization or the list
 * request failed.
 */
module Pipeline {
  import opened Wrappers
  import opened Accounts
  import opened Currency
  import opened Category
  import opened CsvExport
  import opened HtmlReport
  import opened Config
  import opened Email

  datatype Report = Report(
    assetsCsv: seq<seq<string>>,
    liabilitiesCsv: seq<seq<string>>,
    assetsTable: Table,
    liabilitiesTable: Table,
    email: Action)

  /** How a run ends: a configuration error, a failed fetch (both fatal), or a report. */
  datatype RunOutcome = ConfigFailed(error: ConfigError) | FetchFailed(reason: string) | Completed(report: Report)

  method Run(flags: Settings, file: FileState, env: Env, scan: string -> Option<int>,
             fetched: Result<seq<Account>, string>, html: string)
    returns (out: RunOutcome)
    ensures Resolve(flags, file, env, scan).Failure? <==> out.ConfigFailed?
    ensures out.ConfigFailed? ==> out.error == Resolve(flags, file, env, scan).error
    ensures out.FetchFailed? <==> Resolve(flags, file, env, scan).Success? && fetched.Failure?
    ensures out.Completed? ==>
      var accounts := fetched.value;
      var settings := Resolve(flags, file, env, scan).value;
      && fetched.Success?
      && out.report.assetsCsv == CsvData(Select(accounts, Assets))
      && out.report.liabilitiesCsv == CsvData(Select(accounts, Liabilities))
      && out.report.assetsTable == TableOf(Select(accounts, Assets))
      && out.report.liabilitiesTable == TableOf(Select(accounts, Liabilities))
      && out.report.email == Decide(settings, html)
  {
    match Resolve(flags, file, env, scan)
    case Failure(e) =>
      out := ConfigFailed(e);
    case Success(settings) =>
      match fetched
      case Failure(reason) =>
        out := FetchFailed(reason);
      case Success(accounts) =>
        var assets, liabilities := Partition(accounts);
        out := Completed(Report(
          CsvData(assets), CsvData(liabilities),
          TableOf(assets), TableOf(liabilities),
          Decide(settings, html)));
  }

  /**
   * One uncategorised USD asset of 1050 minor units: the asset table has the
   * header and one row whose balance reads "10.50", and the liability table is
   * the header alone.
   */
  lemma SingleUsdAsset(a: Account)
    requires a.balance == 1050 && a.currency == "USD" && a.category == 0 && a.isAsset && !a.isLiability
    ensures CsvData(Select([a], Assets)) == [Header, [a.id, a.name, "USD", "10.50", "Unknown", "true", "false", a.comment]]
    ensures CsvData(Select([a], Liabilities)) == [Header]
  {
    assert Select([a], Assets) == [a] && Select([a], Liabilities) == [];
    UsdCentsRow(a);
    assert CsvData([a]) == [Header, Row(a)];
  }
}
