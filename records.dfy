/** The reconciled output: the canonical `fields` dictionary with its three
    sections, after normalisation. */
module Records {
  import opened Options
  import opened PyJson

  /** One transaction as `_post_process_extracted` builds it: a non-empty
      date, a stripped non-empty description, a parsed amount, an optional
      balance and the category exactly as extracted. */
  datatype Txn = Txn(date: string, description: string, amount: real, balance: Option<real>, category: Json)

  /** "Account Info": the five values, taken as they were extracted (the
      account number masked). */
  datatype AccountInfo = AccountInfo(bankName: Json, holderName: Json, accountNumber: Json,
                                     statementMonth: Json, accountType: Json)

  /** "Summary Values": each amount parsed by `_to_float`, `None` when absent or unparsable. */
  datatype SummaryValues = SummaryValues(opening: Option<real>, closing: Option<real>,
                                         totalCredits: Option<real>, totalDebits: Option<real>,
                                         averageDaily: Option<real>)

  datatype Fields = Fields(account: AccountInfo, summary: SummaryValues, txns: seq<Txn>)
}
