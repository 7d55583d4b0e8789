/** `process_input`: the guards in front of parsing and appending, with the
    selected file passed in as the workbook it holds. */
module App {
  import opened Wrappers
  import opened Company
  import Text
  import Parser
  import opened Sheet

  /** The message the window ends on. `NotAdded` is the "already exists"
      warning, which the source also shows after a caught store error,
      because `add_to_excel` returns `False` for both. */
  datatype Outcome =
    | NoFileSelected
    | EmptyInput
    | InvalidFormat
    | Added(table: Table)
    | NotAdded(reason: AddOutcome)

  function ProcessInput(selected: Option<Workbook>, pasted: string): (r: Outcome)
    requires selected.Some? ==> ValidWorkbook(selected.value)
  {
    if selected.None? then NoFileSelected
    else
      var text := Text.Strip(pasted);
      if text == [] then EmptyInput
      else
        match Parser.ParseText(text)
        case Failure(_) => InvalidFormat
        case Success(rec) =>
          match AddToExcel(selected.value, rec)
          case Inserted(t) => Added(t)
          case other => NotAdded(other)
  }

  /** Without a selected file nothing else is looked at; with one, text
      that is empty or all whitespace is refused before any parse or
      append. */
  lemma BlankInputRejected(selected: Option<Workbook>, pasted: string)
    requires selected.Some? ==> ValidWorkbook(selected.value)
    ensures ProcessInput(selected, pasted).NoFileSelected? <==> selected.None?
    ensures ProcessInput(selected, pasted).EmptyInput? <==> selected.Some? && Text.AllSpace(pasted)
  {
    Text.StripEmptyIffAllSpace(pasted);
  }

  /** The pasted text is stripped first, so whitespace added before or
      after it never changes the outcome. */
  lemma SurroundingWhitespaceIrrelevant(selected: Option<Workbook>, before: string, pasted: string, after: string)
    requires selected.Some? ==> ValidWorkbook(selected.value)
    requires Text.AllSpace(before) && Text.AllSpace(after)
    ensures ProcessInput(selected, before + pasted + after) == ProcessInput(selected, pasted)
  {
    Text.StripIgnoresPadding(before, pasted, after);
  }

  /** With a file selected and some non-blank text, a text that does not
      parse ends in the format error and nothing is stored; a parsed record
      that the store refuses, as a duplicate or after a caught error, ends
      in `NotAdded`, which the window reports as "already exists". */
  lemma ParseOrStoreRejected(wb: Workbook, pasted: string)
    requires ValidWorkbook(wb) && !Text.AllSpace(pasted)
    ensures ProcessInput(Some(wb), pasted).InvalidFormat? <==> Parser.ParseText(Text.Strip(pasted)).Failure?
    ensures Parser.ParseText(Text.Strip(pasted)).Success? && (!wb.Present? || NameKey !in wb.table.columns) ==>
      ProcessInput(Some(wb), pasted) == NotAdded(Failed(if wb.Present? then NoSuchColumn(NameKey) else ReadFailed))
    ensures (&& Parser.ParseText(Text.Strip(pasted)).Success?
             && wb.Present? && NameKey in wb.table.columns
             && Listed(wb.table, Parser.ParseText(Text.Strip(pasted)).value[NameKey])) ==>
      ProcessInput(Some(wb), pasted) == NotAdded(Duplicate)
  {
    Text.StripEmptyIffAllSpace(pasted);
  }

  /** A row is added exactly when a file is selected, the stripped text
      parses, the sheet has a company-name column, and no row carries the
      parsed company name; the new table is the old one with that record
      appended. */
  lemma AddedIffNewCompany(wb: Workbook, pasted: string)
    requires ValidWorkbook(wb)
    ensures var text := Text.Strip(pasted);
      ProcessInput(Some(wb), pasted).Added? <==>
        && Parser.ParseText(text).Success?
        && wb.Present?
        && NameKey in wb.table.columns
        && !Listed(wb.table, Parser.ParseText(text).value[NameKey])
    ensures var text := Text.Strip(pasted);
      ProcessInput(Some(wb), pasted).Added? ==>
        ProcessInput(Some(wb), pasted).table == Append(wb.table, Parser.ParseText(text).value)
  {
  }
}
