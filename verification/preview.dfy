/**
  The text branch of `InitialWindow.loadRawData`: keep the first lines of the
  file for the preview table, then count the columns as the float literals of
  the first line, falling back to the second line when the first has none.
  The file arrives as its sequence of lines; reading it is outside the model.
*/
module Preview {

  import opened Wrappers
  import PySlice
  import FindAll
  import FloatScan

  /**
    The loop over the open file: every line read is appended to the preview,
    the first and second lines are remembered, and the loop stops right after
    appending line 10, so at most eleven lines are kept.
  */
  method CollectPreview(file: seq<string>) returns (lines: seq<string>, firstLine: Option<string>, secondLine: Option<string>)
    ensures lines == file[..PySlice.Min(11, |file|)]
    ensures firstLine == if |file| > 0 then Some(file[0]) else None
    ensures secondLine == if |file| > 1 then Some(file[1]) else None
  {
    lines, firstLine, secondLine := [], None, None;
    var i := 0;
    while i < |file|
      invariant 0 <= i <= |file| && i <= 10
      invariant lines == file[..i]
      invariant firstLine == if i > 0 then Some(file[0]) else None
      invariant secondLine == if i > 1 then Some(file[1]) else None
    {
      var line := file[i];
      if i == 0 {
        firstLine := Some(line);
      }
      if i == 1 {
        secondLine := Some(line);
      }
      lines := lines + [line];
      if i == 10 {
        break;
      }
      i := i + 1;
    }
  }

  /**
    What the column detection ends in: a column count for the table, the
    "Invalid selection" label, or an exception escaping the handler.
  */
  datatype Outcome = Columns(count: nat) | ShowsError | Crashes

  /**
    Column detection as the source has it. A missing first line makes
    `firstline` unbound, the NameError is caught and the label is shown. When
    the first line has no literal and there is no second line, the NameError
    is caught too, but its handler refers to `self.eror`, which does not
    exist, so an AttributeError escapes instead.
  */
  function DetectColumnsAsWritten(firstLine: Option<string>, secondLine: Option<string>): (r: Outcome)
    ensures r.ShowsError? <==> firstLine.None?
    ensures r.Columns? ==> firstLine.Some?
    ensures r.Columns? && firstLine.Some? && FloatScan.CountFloats(firstLine.value) > 0
      ==> r.count == FloatScan.CountFloats(firstLine.value)
    ensures r.Columns? && firstLine.Some? && FloatScan.CountFloats(firstLine.value) == 0
      ==> secondLine.Some? && r.count == FloatScan.CountFloats(secondLine.value)
  {
    if firstLine.None? then ShowsError
    else if FloatScan.CountFloats(firstLine.value) > 0 then Columns(FloatScan.CountFloats(firstLine.value))
    else if secondLine.None? then Crashes
    else Columns(FloatScan.CountFloats(secondLine.value))
  }

  /**
    Column detection with the handler naming the error label: every missing
    line is reported through the label and nothing escapes.
  */
  function DetectColumns(firstLine: Option<string>, secondLine: Option<string>): (r: Outcome)
    ensures !r.Crashes?
    ensures r.ShowsError? <==> firstLine.None? || (FloatScan.CountFloats(firstLine.value) == 0 && secondLine.None?)
    ensures r.Columns? && FloatScan.CountFloats(firstLine.value) > 0 ==> r.count == FloatScan.CountFloats(firstLine.value)
    ensures r.Columns? && FloatScan.CountFloats(firstLine.value) == 0 ==> r.count == FloatScan.CountFloats(secondLine.value)
  {
    if firstLine.None? then ShowsError
    else if FloatScan.CountFloats(firstLine.value) > 0 then Columns(FloatScan.CountFloats(firstLine.value))
    else if secondLine.None? then ShowsError
    else Columns(FloatScan.CountFloats(secondLine.value))
  }

  /** The two differ only where the source's handler misnames the label. */
  lemma AsWrittenDiffersOnlyInHandler(firstLine: Option<string>, secondLine: Option<string>)
    ensures DetectColumnsAsWritten(firstLine, secondLine) != DetectColumns(firstLine, secondLine)
      <==> DetectColumnsAsWritten(firstLine, secondLine).Crashes?
    ensures DetectColumnsAsWritten(firstLine, secondLine).Crashes?
      <==> firstLine.Some? && FloatScan.CountFloats(firstLine.value) == 0 && secondLine.None?
  {
  }

  /** A one-line file whose line holds no number, such as a lone header `"t\n"`, makes the source crash. */
  lemma HeaderOnlyFileCrashes()
    ensures DetectColumnsAsWritten(Some("t\n"), None) == Crashes
    ensures DetectColumns(Some("t\n"), None) == ShowsError
  {
    var s := "t\n";
    var table := FloatScan.MatchTable(s);
    assert table[0].None? && table[1].None?;
    assert FindAll.Scan(table, 2) == [];
    assert FindAll.Scan(table, 1) == [];
    assert FindAll.Scan(table, 0) == [];
  }

  /**
    The text branch up to the preview table, with the error handler corrected
    as in DetectColumns: the kept lines and the columns detected on them. The count is that of the first line when it holds a
    float literal, else that of the second line; a file that offers no line
    to count shows the error label.
  */
  method PreviewFile(file: seq<string>) returns (lines: seq<string>, outcome: Outcome)
    ensures lines == file[..PySlice.Min(11, |file|)]
    ensures !outcome.Crashes?
    ensures outcome.ShowsError? <==> |file| == 0 || (|file| == 1 && FloatScan.CountFloats(file[0]) == 0)
    ensures outcome.Columns? && FloatScan.CountFloats(file[0]) > 0 ==> outcome.count == FloatScan.CountFloats(file[0])
    ensures outcome.Columns? && FloatScan.CountFloats(file[0]) == 0 ==> outcome.count == FloatScan.CountFloats(file[1])
  {
    var firstLine, secondLine;
    lines, firstLine, secondLine := CollectPreview(file);
    outcome := DetectColumns(firstLine, secondLine);
  }

}
