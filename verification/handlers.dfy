/** The two checkbox handlers of the grid (Table.tsx, `onSelectionChange` and
    `onSelectAllChange`). Each replaces the selected rows and the select-all
    flag together; neither reads the previous selection. */
module Handlers {

  datatype Selection<T> = Selection(rows: seq<T>, selectAll: bool)

  /** The grid reports a new list of selected rows; the flag is set when the
      list is as long as the total number of records in the catalog. */
  function OnSelectionChange<T>(value: seq<T>, totalRecords: int): (s: Selection<T>)
    ensures s.rows == value
    ensures s.selectAll <==> |value| == totalRecords
  {
    Selection(value, |value| == totalRecords)
  }

  /** The header checkbox: checked selects every loaded row, unchecked clears. */
  function OnSelectAllChange<T>(checked: bool, products: seq<T>): (s: Selection<T>)
    ensures s.selectAll == checked
    ensures checked ==> s.rows == products
    ensures !checked ==> s.rows == []
  {
    if checked then Selection(products, true) else Selection([], false)
  }

  /** Checking the header box gives the same state as the grid reporting all
      loaded rows selected exactly when the loaded page is the whole catalog:
      on a catalog larger than one page the two disagree on the flag. */
  lemma SelectAllMatchesSelectionChange<T>(products: seq<T>, totalRecords: int)
    ensures OnSelectAllChange(true, products) == OnSelectionChange(products, totalRecords)
        <==> |products| == totalRecords
  {
  }

  /** Unchecking the header box gives the same state as the grid reporting an
      empty selection exactly when the catalog is not empty. */
  lemma ClearAllMatchesSelectionChange<T>(products: seq<T>, totalRecords: int)
    ensures OnSelectAllChange(false, products) == OnSelectionChange([], totalRecords)
        <==> totalRecords != 0
  {
  }
}
