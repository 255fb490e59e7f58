/** The fixed configuration of the scraper: the two site roots and the table of
    status names each one-letter PEP status code stands for. */
module Constants {

  /** Root of the Python documentation site. */
  const MainDocUrl: string := "https://docs.python.org/3/"

  /** Root of the PEP index site. */
  const MainPepUrl: string := "https://peps.python.org/"

  /** `EXPECTED_STATUS`: status code (one letter, or empty) to the status names it abbreviates. */
  const ExpectedStatus: map<string, seq<string>> := map[
    "A" := ["Active", "Accepted"],
    "D" := ["Deferred"],
    "F" := ["Final"],
    "P" := ["Provisional"],
    "R" := ["Rejected"],
    "S" := ["Superseded"],
    "W" := ["Withdrawn"],
    "" := ["Draft", "Active"]
  ]

  /** Both roots end with `/`, so relative references resolve beneath them. */
  lemma BaseUrlsEndWithSlash()
    ensures |MainDocUrl| > 0 && MainDocUrl[|MainDocUrl| - 1] == '/'
    ensures |MainPepUrl| > 0 && MainPepUrl[|MainPepUrl| - 1] == '/'
  {
  }

  /** The table knows exactly eight codes, each at most one character long. */
  lemma ExpectedStatusCodes()
    ensures ExpectedStatus.Keys == {"A", "D", "F", "P", "R", "S", "W", ""}
    ensures forall code :: code in ExpectedStatus ==> |code| <= 1
  {
  }

  /** Every code admits at least one status name. */
  lemma ExpectedStatusNonEmpty()
    ensures forall code :: code in ExpectedStatus ==> |ExpectedStatus[code]| > 0
  {
  }

  /** `A` admits Active and Accepted, the empty code admits Draft and Active; Active is
      the only name admitted under two different codes. */
  lemma ActiveIsTheOnlySharedName()
    ensures ExpectedStatus["A"] == ["Active", "Accepted"]
    ensures ExpectedStatus[""] == ["Draft", "Active"]
    ensures forall c1, c2, name ::
              && c1 in ExpectedStatus && c2 in ExpectedStatus && c1 != c2
              && name in ExpectedStatus[c1] && name in ExpectedStatus[c2]
              ==> name == "Active"
  {
  }

  /** A code that admits one name is that name's initial letter. */
  lemma SingleNameCodesAreInitials()
    ensures forall code :: code in ExpectedStatus && |ExpectedStatus[code]| == 1 ==>
              |code| == 1 && |ExpectedStatus[code][0]| > 0 && ExpectedStatus[code][0][0] == code[0]
  {
  }
}
