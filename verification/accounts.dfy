/**
 * The `Account` record and the asset/liability split done by the loop in
 * `main` (main.go:209-217).
 */
module Accounts {

  /**
   * One account as the list endpoint returns it. `balance` is in minor units
   * (cents for USD) and is an integer here; the source decodes it into a float64.
   */
  datatype Account = Account(
    id: string,
    name: string,
    parentId: string,
    category: int,
    kind: int,
    icon: string,
    color: string,
    currency: string,
    balance: int,
    comment: string,
    displayOrder: int,
    isAsset: bool,
    hidden: bool,
    creditCardStatementDate: int,
    isLiability: bool
  )

  /** Where the split sends an account. */
  datatype Bucket = Assets | Liabilities | Dropped

  /** The asset flag is checked first; an account with neither flag is dropped. */
  function BucketOf(a: Account): (b: Bucket)
    ensures b == Assets <==> a.isAsset
    ensures b == Liabilities <==> !a.isAsset && a.isLiability
    ensures b == Dropped <==> !a.isAsset && !a.isLiability
  {
    if a.isAsset then Assets else if a.isLiability then Liabilities else Dropped
  }

  /** Reference definition: the accounts of a bucket, in input order. */
  function Select(accounts: seq<Account>, b: Bucket): (r: seq<Account>)
    ensures |r| <= |accounts|
  {
    if |accounts| == 0 then []
    else if BucketOf(accounts[0]) == b then [accounts[0]] + Select(accounts[1..], b)
    else Select(accounts[1..], b)
  }

  /** The split loop: appends each account to the bucket its flags select. */
  method Partition(accounts: seq<Account>) returns (assets: seq<Account>, liabilities: seq<Account>)
    ensures assets == Select(accounts, Assets)
    ensures liabilities == Select(accounts, Liabilities)
  {
    assets, liabilities := [], [];
    var i := 0;
    while i < |accounts|
      invariant 0 <= i <= |accounts|
      invariant assets == Select(accounts[..i], Assets)
      invariant liabilities == Select(accounts[..i], Liabilities)
    {
      var account := accounts[i];
      SelectAppend(accounts[..i], [account], Assets);
      SelectAppend(accounts[..i], [account], Liabilities);
      assert accounts[..i + 1] == accounts[..i] + [account];
      if account.isAsset {
        assets := assets + [account];
      } else if account.isLiability {
        liabilities := liabilities + [account];
      }
      i := i + 1;
    }
    assert accounts[..i] == accounts;
  }

  /** Selection distributes over concatenation: earlier input stays earlier in a bucket. */
  lemma {:induction false} SelectAppend(xs: seq<Account>, ys: seq<Account>, b: Bucket)
    ensures Select(xs + ys, b) == Select(xs, b) + Select(ys, b)
    decreases |xs|
  {
    if |xs| > 0 {
      assert (xs + ys)[0] == xs[0];
      assert (xs + ys)[1..] == xs[1..] + ys;
      SelectAppend(xs[1..], ys, b);
    } else {
      assert xs + ys == ys;
    }
  }

  /** An account is in a bucket exactly when it is in the input and its flags select that bucket. */
  lemma {:induction false} SelectMembers(accounts: seq<Account>, b: Bucket, a: Account)
    ensures a in Select(accounts, b) <==> a in accounts && BucketOf(a) == b
    decreases |accounts|
  {
    if |accounts| > 0 {
      SelectMembers(accounts[1..], b, a);
      assert accounts == [accounts[0]] + accounts[1..];
    }
  }

  /** The buckets share no account, and an account with both flags is an asset only. */
  lemma BucketsDisjoint(accounts: seq<Account>, a: Account)
    ensures !(a in Select(accounts, Assets) && a in Select(accounts, Liabilities))
    ensures a in accounts && a.isAsset ==> a in Select(accounts, Assets) && a !in Select(accounts, Liabilities)
    ensures a in accounts && !a.isAsset && a.isLiability ==> a in Select(accounts, Liabilities)
    ensures !a.isAsset && !a.isLiability ==> a !in Select(accounts, Assets) && a !in Select(accounts, Liabilities)
  {
    SelectMembers(accounts, Assets, a);
    SelectMembers(accounts, Liabilities, a);
  }

  /** The three buckets together hold every input account exactly once. */
  lemma {:induction false} SelectConserves(accounts: seq<Account>)
    ensures multiset(Select(accounts, Assets)) + multiset(Select(accounts, Liabilities))
          + multiset(Select(accounts, Dropped)) == multiset(accounts)
    decreases |accounts|
  {
    if |accounts| > 0 {
      var x, rest := accounts[0], accounts[1..];
      SelectConserves(rest);
      assert accounts == [x] + rest;
      assert multiset(accounts) == multiset{x} + multiset(rest);
      match BucketOf(x)
      case Assets =>
        assert Select(accounts, Assets) == [x] + Select(rest, Assets);
      case Liabilities =>
        assert Select(accounts, Liabilities) == [x] + Select(rest, Liabilities);
      case Dropped =>
        assert Select(accounts, Dropped) == [x] + Select(rest, Dropped);
    }
  }

  /** `ys` is `xs` with some elements removed and the rest kept in order. */
  ghost predicate IsSubsequence(ys: seq<Account>, xs: seq<Account>)
    decreases |xs|
  {
    || |ys| == 0
    || (&& |xs| > 0
        && ((ys[0] == xs[0] && IsSubsequence(ys[1..], xs[1..])) || IsSubsequence(ys, xs[1..])))
  }

  /** Each bucket keeps the relative order of the input. */
  lemma {:induction false} SelectIsSubsequence(accounts: seq<Account>, b: Bucket)
    ensures IsSubsequence(Select(accounts, b), accounts)
    decreases |accounts|
  {
    if |accounts| > 0 {
      SelectIsSubsequence(accounts[1..], b);
      var rest := Select(accounts[1..], b);
      if BucketOf(accounts[0]) == b {
        assert ([accounts[0]] + rest)[1..] == rest;
      }
    }
  }
}
