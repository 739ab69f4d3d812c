/** The row-shaping part of `exportToExcel` in dashboard/src/App.jsx: the filtered documents
    are flattened into sheet rows, and an empty selection is refused. */
module Export {
  import opened Wrappers
  import opened JsValues
  import Filter

  /** The one refusal: `alert('No data to export.')` on an empty filtered set. */
  datatype ExportError = NoDataToExport

  /** A row whose cells are all scalars (no array or object left to serialise). */
  predicate IsFlat(row: Doc) {
    forall k :: k in row ==> !IsObject(row[k])
  }

  /** One cell: an array or object becomes its serialised string, any other value
      (including `null`) is copied. `stringify` stands for `JSON.stringify`. */
  function SanitizeValue(v: Value, stringify: Value -> string): (cell: Value)
    ensures !IsObject(cell)
    ensures !IsObject(v) ==> cell == v
    ensures IsObject(v) ==> cell.Str? && cell.s == stringify(v)
  {
    if IsObject(v) then Str(stringify(v)) else v
  }

  /** One row: the same keys as the document, each cell sanitised. */
  function SanitizeDoc(doc: Doc, stringify: Value -> string): (row: Doc)
    ensures row.Keys == doc.Keys
    ensures IsFlat(row)
    ensures forall k :: k in doc && !IsObject(doc[k]) ==> row[k] == doc[k]
    ensures forall k :: k in doc && IsObject(doc[k]) ==> row[k] == Str(stringify(doc[k]))
  {
    map k | k in doc :: SanitizeValue(doc[k], stringify)
  }

  /** A document that is already flat goes to the sheet unchanged. */
  lemma SanitizeFlatIsIdentity(doc: Doc, stringify: Value -> string)
    requires IsFlat(doc)
    ensures SanitizeDoc(doc, stringify) == doc
  {
  }

  /** Sanitising a row a second time changes nothing. */
  lemma SanitizeIdempotent(doc: Doc, stringify: Value -> string)
    ensures SanitizeDoc(SanitizeDoc(doc, stringify), stringify) == SanitizeDoc(doc, stringify)
  {
    SanitizeFlatIsIdentity(SanitizeDoc(doc, stringify), stringify);
  }

  /** `exportToExcel` up to the sheet construction: refused on an empty selection,
      otherwise one flat row per filtered document, in the same order, with the same keys. */
  function ExportRows(filtered: seq<Doc>, stringify: Value -> string): (r: Result<seq<Doc>, ExportError>)
    ensures r.Failure? <==> |filtered| == 0
    ensures r.Failure? ==> r.error == NoDataToExport
    ensures r.Success? ==> |r.value| == |filtered|
    ensures r.Success? ==> forall i :: 0 <= i < |filtered| ==>
              && r.value[i].Keys == filtered[i].Keys
              && IsFlat(r.value[i])
              && (forall k :: k in filtered[i] && !IsObject(filtered[i][k]) ==> r.value[i][k] == filtered[i][k])
              && (forall k :: k in filtered[i] && IsObject(filtered[i][k]) ==>
                    r.value[i][k] == Str(stringify(filtered[i][k])))
  {
    if |filtered| == 0 then Failure(NoDataToExport)
    else Success(seq(|filtered|, i requires 0 <= i < |filtered| => SanitizeDoc(filtered[i], stringify)))
  }

  /** Exporting documents that are all flat hands them to the sheet exactly as they are. */
  lemma ExportFlatIsIdentity(filtered: seq<Doc>, stringify: Value -> string)
    requires |filtered| > 0
    requires forall i :: 0 <= i < |filtered| ==> IsFlat(filtered[i])
    ensures ExportRows(filtered, stringify) == Success(filtered)
  {
    var rows := ExportRows(filtered, stringify).value;
    forall i | 0 <= i < |filtered|
      ensures rows[i] == filtered[i]
    {
      SanitizeFlatIsIdentity(filtered[i], stringify);
    }
    assert rows == filtered;
  }

  /** Exporting the current view of a collection is refused exactly when the view is empty:
      with no filter, when the collection is; with an active filter, when no document matches. */
  lemma ExportOfFilteredView(docs: seq<Doc>, field: string, value: string, operator: string,
                             stringify: Value -> string)
    ensures !Filter.Active(field, value) ==>
              (ExportRows(Filter.ApplyFilter(docs, field, value, operator), stringify).Failure? <==> |docs| == 0)
    ensures Filter.Active(field, value) ==>
              (ExportRows(Filter.ApplyFilter(docs, field, value, operator), stringify).Failure? <==>
                 forall d :: d in docs ==> !Filter.Matches(d, field, value, Filter.ParseOperator(operator)))
  {
    var view := Filter.ApplyFilter(docs, field, value, operator);
    if Filter.Active(field, value) && |view| > 0 {
      assert view[0] in view;
    }
  }
}
