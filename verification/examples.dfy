/** Concrete cases of the matcher, proved from the general theorems:
    mask `report_*.csv` against `report_2024.csv` and `report2024.csv`,
    and type `name` on `a.txt` against `a.txt` and `a.TXT`. */
module FinderExamples {

  import opened Results
  import opened Regex
  import opened Mask
  import opened Finder

  lemma GlobReportExample()
    ensures GlobMatch("report_*.csv", "report_2024.csv")
  {
    var lit, rest, tail := "report_", "*.csv", "2024.csv";
    var s := lit + tail;
    assert lit + rest == "report_*.csv";
    assert s == "report_2024.csv";
    assert s[..|lit|] == lit && s[|lit|..] == tail;
    GlobStarTailExample();
    GlobLiteralPrefix(lit, rest, s);
  }

  lemma GlobStarTailExample()
    ensures GlobMatch("*.csv", "2024.csv")
  {
    var tail, w := ".csv", "2024";
    GlobLiteral(tail, tail);
    GlobStarAbsorbs(w, tail, tail);
    assert "*" + tail == "*.csv";
    assert w + tail == "2024.csv";
  }

  lemma ReportMaskIsMetaFree()
    ensures MetaFree("report_*.csv")
  {
  }

  /** `report_*.csv` accepts `report_2024.csv` and rejects `report2024.csv`,
      which lacks the underscore. */
  lemma ReportExampleMatches(engine: Engine)
    ensures MatchesMask(engine, "report_2024.csv", "report_*.csv")
  {
    GlobReportExample();
    ReportMaskIsMetaFree();
  }

  lemma ReportExampleRejects(engine: Engine)
    ensures !MatchesMask(engine, "report2024.csv", "report_*.csv")
  {
    GlobReportRejects();
    ReportMaskIsMetaFree();
  }

  lemma GlobReportRejects()
    ensures !GlobMatch("report_*.csv", "report2024.csv")
  {
    var lit, rest, s := "report_", "*.csv", "report2024.csv";
    assert lit + rest == "report_*.csv";
    GlobLiteralPrefix(lit, rest, s);
    assert s[..|lit|][6] != lit[6];
  }

  /** Name matching is exact and case-sensitive. */
  lemma NameExamples(engine: Engine)
    ensures Matches(engine, "a.txt", "a.txt", "name") == Ok(true)
    ensures Matches(engine, "a.TXT", "a.txt", "name") == Ok(false)
  {
  }
}
