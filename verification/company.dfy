/** The nine field names a company record carries, which are also the
    columns the sheet must have, in the sheet's column order. */
module Company {
  import opened Wrappers

  const NameKey := "Company Name"
  const PhoneKey := "Company Phone"
  const EmailKey := "Company Email"
  const IndustryKey := "Industry"
  const TypeKey := "Company Type"
  const TradeKey := "Import/Export Activities"
  const CountryKey := "Company Country"
  const WebsiteKey := "Company Website"
  const OperationsKey := "Operations"

  const RequiredColumns: seq<string> :=
    [NameKey, PhoneKey, EmailKey, IndustryKey, TypeKey, TradeKey, CountryKey, WebsiteKey, OperationsKey]

  /** A company record, and equally a sheet row: field or column name to
      value, `None` for an empty cell or a field that was not found. */
  type Record = map<string, Option<string>>

  /** No name occurs twice. */
  ghost predicate Distinct(names: seq<string>)
  {
    forall i, j :: 0 <= i < j < |names| ==> names[i] != names[j]
  }

  /** The names in a column list, as a set. */
  function ColumnSet(columns: seq<string>): set<string>
  {
    set c | c in columns
  }

  /** The keys of a parsed record. */
  function KeySet(): set<string>
  {
    ColumnSet(RequiredColumns)
  }

  /** The nine keys are pairwise different. */
  lemma KeysDistinct()
    ensures Distinct(RequiredColumns)
  {
  }
}
