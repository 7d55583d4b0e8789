/** `parse_text` and `extract_optional_field`: pasted text to a company
    record, or a parse error when a mandatory label is missing. */
module Parser {
  import opened Wrappers
  import opened Pattern
  import opened Company
  import Text

  /** The `AttributeError` raised by `.group` on a failed mandatory search. */
  datatype ParseError = InvalidDataFormat

  const NameLabel := "Company Name: "
  const PhoneLabel := "Company Phone: "
  const EmailLabel := "Company Email: "
  const IndustryLabel := "Industry: "
  const TypeLabel := "Company Type: "
  const TradeLabel := "Import/Export Activities: "
  const CountryLabel := "Company Country: "
  const WebsiteLabel := "Company Website: "
  const OperationsLabel := "Company Operations: "

  /** One entry of the record: its key, the label searched for, whether `.`
      crosses lines, and whether a missing label fails the parse. */
  datatype Field = Field(key: string, prefix: string, mode: Mode, mandatory: bool)

  /** The one field searched with `re.DOTALL`. */
  const OperationsField := Field(OperationsKey, OperationsLabel, DotAll, true)

  const Fields: seq<Field> := [
    Field(NameKey, NameLabel, SingleLine, true),
    Field(PhoneKey, PhoneLabel, SingleLine, true),
    Field(EmailKey, EmailLabel, SingleLine, false),
    Field(IndustryKey, IndustryLabel, SingleLine, true),
    Field(TypeKey, TypeLabel, SingleLine, true),
    Field(TradeKey, TradeLabel, SingleLine, false),
    Field(CountryKey, CountryLabel, SingleLine, true),
    Field(WebsiteKey, WebsiteLabel, SingleLine, false),
    OperationsField
  ]

  /** `re.search(lbl + "(.+)", text).group(1).strip()`, `None` when the
      search finds nothing. */
  function Capture(text: string, lbl: string, mode: Mode): Option<string>
  {
    match Search(text, lbl, mode)
    case None => None
    case Some(v) => Some(Text.Strip(v))
  }

  /** `extract_optional_field`: the stripped rest of the label's line, or
      `None` when no occurrence of the label has text after it. */
  function ExtractOptionalField(text: string, lbl: string): Option<string>
  {
    Capture(text, lbl, SingleLine)
  }

  /** `extract_optional_field` gives `None` exactly when no occurrence of
      the label has text after it on its line, and a value it finds never
      spans two lines. */
  lemma {:induction false} ExtractOptionalFieldNoneIffNoMatch(text: string, lbl: string)
    ensures ExtractOptionalField(text, lbl).None? <==> NoMatch(text, lbl, SingleLine)
    ensures ExtractOptionalField(text, lbl).Some? ==> '\n' !in ExtractOptionalField(text, lbl).value
  {
    SearchNoneIffNoMatch(text, lbl, SingleLine);
    if Search(text, lbl, SingleLine).Some? {
      var v := Search(text, lbl, SingleLine).value;
      assert forall j :: 0 <= j < |v| ==> v[j] != '\n';
      Text.StripKeepsOut(v, '\n');
    }
  }

  /** One entry's value: `re.search(...).group(1).strip()` for a mandatory
      field, `extract_optional_field` for an optional one. */
  function FieldValue(text: string, f: Field): Option<string>
  {
    if f.mandatory then Capture(text, f.prefix, f.mode) else ExtractOptionalField(text, f.prefix)
  }

  /** The dictionary literal of `parse_text`, built entry by entry in the
      order written: `None` as soon as a mandatory search finds nothing
      (the `AttributeError` of `.group`), a later entry overriding an
      earlier one with the same key. */
  function Collect(text: string, fs: seq<Field>): Option<Record>
    decreases |fs|
  {
    if fs == [] then Some(map[])
    else
      match Collect(text, fs[..|fs| - 1])
      case None => None
      case Some(m) =>
        var f := fs[|fs| - 1];
        var v := FieldValue(text, f);
        if f.mandatory && v.None? then None else Some(m[f.key := v])
  }

  /** `f` is mandatory and its search finds nothing. */
  predicate Lacks(text: string, f: Field)
  {
    f.mandatory && Capture(text, f.prefix, f.mode).None?
  }

  /** Building the dictionary fails exactly when some entry lacks its
      mandatory value. */
  lemma {:induction false} CollectNoneIff(text: string, fs: seq<Field>)
    ensures Collect(text, fs).None? <==> exists i :: 0 <= i < |fs| && Lacks(text, fs[i])
    decreases |fs|
  {
    if fs != [] {
      var init := fs[..|fs| - 1];
      CollectNoneIff(text, init);
      assert forall i :: 0 <= i < |init| ==> init[i] == fs[i];
      if Collect(text, fs).None? && Collect(text, init).Some? {
        assert Lacks(text, fs[|fs| - 1]);
      }
    }
  }

  /** A built dictionary has exactly the keys of the entries. */
  lemma {:induction false} CollectKeys(text: string, fs: seq<Field>)
    requires Collect(text, fs).Some?
    ensures forall k :: k in Collect(text, fs).value <==> exists i :: 0 <= i < |fs| && fs[i].key == k
    decreases |fs|
  {
    if fs != [] {
      var init := fs[..|fs| - 1];
      CollectKeys(text, init);
      assert forall i :: 0 <= i < |init| ==> init[i] == fs[i];
    }
  }

  /** In a built dictionary, an entry that no later entry overrides holds
      its own value. */
  lemma {:induction false} CollectValue(text: string, fs: seq<Field>, i: int)
    requires Collect(text, fs).Some?
    requires 0 <= i < |fs|
    requires forall j :: i < j < |fs| ==> fs[j].key != fs[i].key
    ensures fs[i].key in Collect(text, fs).value
    ensures Collect(text, fs).value[fs[i].key] == FieldValue(text, fs[i])
    decreases |fs|
  {
    if i < |fs| - 1 {
      var init := fs[..|fs| - 1];
      assert init[i] == fs[i];
      assert forall j :: i < j < |init| ==> init[j] == fs[j];
      CollectValue(text, init, i);
    }
  }

  /** The keys of `Fields` are the required columns, in the same order. */
  lemma FieldKeysAreColumns()
    ensures |Fields| == |RequiredColumns|
    ensures forall i :: 0 <= i < |Fields| ==> Fields[i].key == RequiredColumns[i]
  {
  }

  /** `parse_text`: the dictionary, or the parse error when a mandatory
      search finds nothing. A parsed record has exactly the required
      columns as keys. */
  function ParseText(text: string): (r: Result<Record, ParseError>)
    ensures r.Success? ==> r.value.Keys == KeySet()
  {
    match Collect(text, Fields)
    case None => Failure(InvalidDataFormat)
    case Some(m) =>
      CollectKeys(text, Fields);
      FieldKeysAreColumns();
      Success(m)
  }

  /** A label that is never found, if one of the mandatory six, fails the
      parse. */
  lemma {:induction false} MissingMandatoryFailsParse(text: string, f: Field)
    requires f in Fields && f.mandatory && NoMatch(text, f.prefix, f.mode)
    ensures ParseText(text).Failure?
  {
    SearchNoneIffNoMatch(text, f.prefix, f.mode);
    var i :| 0 <= i < |Fields| && Fields[i] == f;
    assert Lacks(text, Fields[i]);
    CollectNoneIff(text, Fields);
  }

  /** A failed parse names a mandatory label that is never found. */
  lemma {:induction false} FailedParseHasMissingMandatory(text: string) returns (f: Field)
    requires ParseText(text).Failure?
    ensures f in Fields && f.mandatory && NoMatch(text, f.prefix, f.mode)
  {
    CollectNoneIff(text, Fields);
    var i :| 0 <= i < |Fields| && Lacks(text, Fields[i]);
    f := Fields[i];
    SearchNoneIffNoMatch(text, f.prefix, f.mode);
  }

  /** Parsing fails exactly when one of the six mandatory labels never
      occurs with text after it. */
  lemma {:induction false} ParseFailsIffMandatoryMissing(text: string)
    ensures ParseText(text).Failure? <==>
      exists f :: f in Fields && f.mandatory && NoMatch(text, f.prefix, f.mode)
  {
    if ParseText(text).Failure? {
      var f := FailedParseHasMissingMandatory(text);
    } else {
      forall f | f in Fields && f.mandatory
        ensures !NoMatch(text, f.prefix, f.mode)
      {
        if NoMatch(text, f.prefix, f.mode) {
          MissingMandatoryFailsParse(text, f);
        }
      }
    }
  }

  /** Each key of a parsed record holds its own label's stripped capture,
      which for an optional field is what `extract_optional_field` returns;
      in particular the `Company Operations: ` capture is stored under
      `Operations`. */
  lemma {:induction false} ParsedFieldValue(text: string, f: Field)
    requires ParseText(text).Success?
    requires f in Fields
    ensures f.key in ParseText(text).value && ParseText(text).value[f.key] == Capture(text, f.prefix, f.mode)
    ensures !f.mandatory ==> ParseText(text).value[f.key] == ExtractOptionalField(text, f.prefix)
  {
    var i :| 0 <= i < |Fields| && Fields[i] == f;
    assert !f.mandatory ==> f.mode == SingleLine;
    FieldKeysAreColumns();
    KeysDistinct();
    CollectValue(text, Fields, i);
  }

  /** Every mandatory key of a parsed record holds a string, never `None`. */
  lemma {:induction false} MandatoryFieldsPresent(text: string, f: Field)
    requires ParseText(text).Success?
    requires f in Fields && f.mandatory
    ensures f.key in ParseText(text).value && ParseText(text).value[f.key].Some?
  {
    ParsedFieldValue(text, f);
    SearchNoneIffNoMatch(text, f.prefix, f.mode);
    if NoMatch(text, f.prefix, f.mode) {
      MissingMandatoryFailsParse(text, f);
    }
  }

  /** An optional key holds `None` exactly when its label is not found, and
      a missing optional label never makes the parse fail. */
  lemma {:induction false} OptionalFieldAbsentIffNoMatch(text: string, f: Field)
    requires f in Fields && !f.mandatory
    ensures ParseText(text).Success? ==>
      f.key in ParseText(text).value && (ParseText(text).value[f.key].None? <==> NoMatch(text, f.prefix, f.mode))
    ensures ParseText(text).Failure? ==> exists g :: g in Fields && g.mandatory && NoMatch(text, g.prefix, g.mode)
  {
    ParseFailsIffMandatoryMissing(text);
    if ParseText(text).Success? {
      ParsedFieldValue(text, f);
      SearchNoneIffNoMatch(text, f.prefix, f.mode);
    }
  }

  /** Without `re.DOTALL` the stripped capture is the stripped rest of the
      line and holds no line feed. */
  lemma {:induction false} SingleLineCapture(text: string, lbl: string, i: int, e: int)
    requires FirstMatch(text, lbl, SingleLine, i)
    requires LineEndAt(text, i + |lbl|, e)
    ensures Capture(text, lbl, SingleLine) == Some(Text.Strip(text[i + |lbl|..e]))
    ensures '\n' !in Text.Strip(text[i + |lbl|..e])
  {
    SingleLineCaptureIsRestOfLine(text, lbl, i, e);
    var v := text[i + |lbl|..e];
    assert forall j :: 0 <= j < |v| ==> v[j] != '\n';
    Text.StripKeepsOut(v, '\n');
  }

  /** A label whose first occurrence is followed only by spaces up to the
      end of its line captures the empty string: the search accepts the
      spaces and `strip()` removes them, so a mandatory field can be blank
      without failing the parse. */
  lemma {:induction false} BlankLineCapturesEmpty(text: string, lbl: string, i: int, e: int)
    requires FirstMatch(text, lbl, SingleLine, i)
    requires LineEndAt(text, i + |lbl|, e)
    requires Text.AllSpace(text[i + |lbl|..e])
    ensures Capture(text, lbl, SingleLine) == Some("")
  {
    SingleLineCapture(text, lbl, i, e);
    Text.StripEmptyIffAllSpace(text[i + |lbl|..e]);
  }

  /** The operations value is the stripped text from the first
      `Company Operations: ` that has anything after it up to the end of the
      input, line feeds included. */
  lemma {:induction false} OperationsValue(text: string, i: int)
    requires ParseText(text).Success?
    requires FirstMatch(text, OperationsLabel, DotAll, i)
    ensures ParseText(text).value[OperationsKey] == Some(Text.Strip(text[i + |OperationsLabel|..]))
  {
    ParsedFieldValue(text, OperationsField);
    DotAllCaptureIsRestOfText(text, OperationsLabel, i);
  }
}
