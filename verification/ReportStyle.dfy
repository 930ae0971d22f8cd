/** How much of a matched text is reported. */
module ReportStyle {
  import opened Bytes

  datatype DataReportStyle = Raw | PartialSha256(reportBits: nat) | Sha256 | NoReport

  /** The style that reveals less. */
  function Stricter(a: DataReportStyle, b: DataReportStyle): DataReportStyle {
    if a.NoReport? || b.NoReport? then NoReport
    else if a.PartialSha256? && b.PartialSha256? then PartialSha256(Min(a.reportBits, b.reportBits))
    else if a.PartialSha256? then a
    else if b.PartialSha256? then b
    else if a.Sha256? || b.Sha256? then Sha256
    else Raw
  }

  /** How much a style reveals: nothing, some bits of a digest, the digest, the text. */
  predicate RevealsNoMore(a: DataReportStyle, b: DataReportStyle) {
    match (a, b)
    case (NoReport, _) => true
    case (_, Raw) => true
    case (PartialSha256(m), PartialSha256(n)) => m <= n
    case (PartialSha256(_), Sha256) => true
    case (Sha256, Sha256) => true
    case _ => false
  }

  /** Of any two styles one reveals no more than the other, and the stricter is one of the two that reveals
      no more than either. */
  lemma StricterIsLeast(a: DataReportStyle, b: DataReportStyle)
    ensures Stricter(a, b) == a || Stricter(a, b) == b
    ensures RevealsNoMore(Stricter(a, b), a) && RevealsNoMore(Stricter(a, b), b)
    ensures RevealsNoMore(a, b) || RevealsNoMore(b, a)
    ensures RevealsNoMore(a, b) && RevealsNoMore(b, a) ==> a == b
  {
  }
}
