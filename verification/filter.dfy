/** `applyFilter` from dashboard/src/App.jsx: a single-field, single-operator predicate
    filter over the cached documents of the selected collection. */
module Filter {
  import opened Wrappers
  import Text
  import opened JsValues
  import opened Sequences

  /** The operators the filter form offers, and every other string. */
  datatype Operator =
    | Equals
    | Contains
    | StartsWith
    | EndsWith
    | GreaterThan
    | LessThan
    | Unrecognised

  const KnownOperatorNames: set<string> :=
    {"equals", "contains", "startsWith", "endsWith", "greaterThan", "lessThan"}

  /** The `switch (operator)` dispatch: one case per known name, `default` for the rest. */
  function ParseOperator(name: string): (op: Operator)
    ensures op == Unrecognised <==> name !in KnownOperatorNames
  {
    match name
    case "equals" => Equals
    case "contains" => Contains
    case "startsWith" => StartsWith
    case "endsWith" => EndsWith
    case "greaterThan" => GreaterThan
    case "lessThan" => LessThan
    case _ => Unrecognised
  }

  /** The name the filter form sends for a known operator. */
  function OperatorName(op: Operator): (name: string)
    requires op != Unrecognised
    ensures name in KnownOperatorNames
  {
    match op
    case Equals => "equals"
    case Contains => "contains"
    case StartsWith => "startsWith"
    case EndsWith => "endsWith"
    case GreaterThan => "greaterThan"
    case LessThan => "lessThan"
  }

  /** Every known operator is recognised from its own name. */
  lemma OperatorNameRoundTrip(op: Operator)
    requires op != Unrecognised
    ensures ParseOperator(OperatorName(op)) == op
  {
  }

  /** `doc[field]` is neither `undefined` nor `null`. */
  predicate Present(doc: Doc, field: string) {
    field in doc && !doc[field].Null?
  }

  /** `String(doc[field]).toLowerCase()`. */
  function FieldText(doc: Doc, field: string): string
    requires field in doc
  {
    Text.Lower(ToJsString(doc[field]))
  }

  /** The callback handed to `filter`: whether `doc` is kept. */
  predicate Matches(doc: Doc, field: string, value: string, op: Operator)
    ensures Matches(doc, field, value, op) ==> Present(doc, field)
    ensures Present(doc, field) && op == Unrecognised ==> Matches(doc, field, value, op)
  {
    if field !in doc || doc[field].Null? then false
    else
      var docText := FieldText(doc, field);
      var filterText := Text.Lower(value);
      match op
      case Equals => docText == filterText
      case Contains => Text.Includes(docText, filterText)
      case StartsWith => Text.StartsWith(docText, filterText)
      case EndsWith => Text.EndsWith(docText, filterText)
      case GreaterThan =>
        (match (ToNumber(doc[field]), ParseNumber(value))
         case (Some(a), Some(b)) => a > b
         case _ => false)
      case LessThan =>
        (match (ToNumber(doc[field]), ParseNumber(value))
         case (Some(a), Some(b)) => a < b
         case _ => false)
      case Unrecognised => true
  }

  /** `docs.filter(...)` with the callback above: the matching documents, in order. */
  function FilterDocs(docs: seq<Doc>, field: string, value: string, op: Operator): (r: seq<Doc>)
    ensures |r| <= |docs|
    ensures forall d :: d in r <==> d in docs && Matches(d, field, value, op)
  {
    if |docs| == 0 then []
    else
      var rest := FilterDocs(docs[1..], field, value, op);
      assert forall d :: d in docs <==> d == docs[0] || d in docs[1..];
      if Matches(docs[0], field, value, op) then [docs[0]] + rest else rest
  }

  /** The filter is active when both the field and the value are non-empty strings. */
  predicate Active(field: string, value: string) {
    field != "" && value != ""
  }

  /** `applyFilter(dataArray, field, value, operator)`. */
  function ApplyFilter(docs: seq<Doc>, field: string, value: string, operator: string): (r: seq<Doc>)
    ensures !Active(field, value) ==> r == docs
    ensures |r| <= |docs|
    ensures forall d :: d in r ==> d in docs
    ensures Active(field, value) ==> forall d :: d in r ==> Present(d, field)
    ensures Active(field, value) ==>
              forall d :: d in r <==> d in docs && Matches(d, field, value, ParseOperator(operator))
  {
    if !Active(field, value) then docs
    else FilterDocs(docs, field, value, ParseOperator(operator))
  }

  /** Under an active filter, `applyFilter` is the scan with the named operator's callback. */
  lemma ApplyFilterIsScan(docs: seq<Doc>, field: string, value: string, operator: string)
    requires Active(field, value)
    ensures ApplyFilter(docs, field, value, operator) == FilterDocs(docs, field, value, ParseOperator(operator))
  {
  }

  /* ---------------------------------------------------------------------------
     Order and multiplicity: the result is the subsequence at the matching positions
     --------------------------------------------------------------------------- */

  /** `idx` embeds `r` in `docs` and holds exactly the positions whose document matches. */
  ghost predicate SelectsMatching(r: seq<Doc>, docs: seq<Doc>, idx: seq<int>,
                                  field: string, value: string, op: Operator)
  {
    && Embeds(r, docs, idx)
    && forall i :: 0 <= i < |docs| ==> (i in idx <==> Matches(docs[i], field, value, op))
  }

  lemma {:induction false} FilterDocsPositions(docs: seq<Doc>, field: string, value: string, op: Operator)
    ensures exists idx :: SelectsMatching(FilterDocs(docs, field, value, op), docs, idx, field, value, op)
  {
    var r := FilterDocs(docs, field, value, op);
    if |docs| == 0 {
      assert SelectsMatching(r, docs, [], field, value, op);
    } else {
      var d := docs[0];
      var tail := docs[1..];
      var rest := FilterDocs(tail, field, value, op);
      FilterDocsPositions(tail, field, value, op);
      var idx' :| SelectsMatching(rest, tail, idx', field, value, op);
      var shifted := Shift(idx');
      var keep := Matches(d, field, value, op);
      var idx := if keep then [0] + shifted else shifted;
      assert docs == [d] + tail;
      if keep {
        EmbedsKeep(d, rest, tail, idx');
      } else {
        EmbedsSkip(d, rest, tail, idx');
      }
      forall i | 0 <= i < |docs|
        ensures i in idx <==> Matches(docs[i], field, value, op)
      {
        ShiftMembers(idx', i);
        if i == 0 {
          assert -1 !in idx';
        } else {
          assert docs[i] == tail[i - 1];
        }
      }
      assert SelectsMatching(r, docs, idx, field, value, op);
    }
  }

  /** With an active filter, the result keeps every matching document and only those,
      each occurrence in its original relative order. */
  lemma ApplyFilterSelectsMatching(docs: seq<Doc>, field: string, value: string, operator: string)
    requires Active(field, value)
    ensures exists idx :: SelectsMatching(ApplyFilter(docs, field, value, operator), docs, idx,
                                          field, value, ParseOperator(operator))
  {
    var op := ParseOperator(operator);
    FilterDocsPositions(docs, field, value, op);
    var idx :| SelectsMatching(FilterDocs(docs, field, value, op), docs, idx, field, value, op);
    assert SelectsMatching(ApplyFilter(docs, field, value, operator), docs, idx, field, value, op);
  }

  /** The result is always a subsequence of the input. */
  lemma ApplyFilterSubsequence(docs: seq<Doc>, field: string, value: string, operator: string)
    ensures IsSubsequence(ApplyFilter(docs, field, value, operator), docs)
  {
    if Active(field, value) {
      ApplyFilterSelectsMatching(docs, field, value, operator);
    } else {
      SubsequenceReflexive(docs);
    }
  }

  /* ---------------------------------------------------------------------------
     Idempotence: re-running the same filter on its own output changes nothing
     --------------------------------------------------------------------------- */

  lemma {:induction false} FilterDocsKeepsAllMatching(docs: seq<Doc>, field: string, value: string, op: Operator)
    requires forall d :: d in docs ==> Matches(d, field, value, op)
    ensures FilterDocs(docs, field, value, op) == docs
  {
    if |docs| > 0 {
      assert forall d :: d in docs[1..] ==> d in docs;
      FilterDocsKeepsAllMatching(docs[1..], field, value, op);
      assert docs == [docs[0]] + docs[1..];
    }
  }

  lemma {:induction false} FilterDocsNoneMatching(docs: seq<Doc>, field: string, value: string, op: Operator)
    requires forall d :: d in docs ==> !Matches(d, field, value, op)
    ensures FilterDocs(docs, field, value, op) == []
  {
    if |docs| > 0 {
      assert forall d :: d in docs[1..] ==> d in docs;
      FilterDocsNoneMatching(docs[1..], field, value, op);
    }
  }

  lemma ApplyFilterIdempotent(docs: seq<Doc>, field: string, value: string, operator: string)
    ensures var once := ApplyFilter(docs, field, value, operator);
            ApplyFilter(once, field, value, operator) == once
  {
    if Active(field, value) {
      FilterDocsKeepsAllMatching(ApplyFilter(docs, field, value, operator), field, value, ParseOperator(operator));
    }
  }

  /* ---------------------------------------------------------------------------
     What each operator keeps
     --------------------------------------------------------------------------- */

  /** `equals` on one document: the lower-cased string forms are equal. */
  lemma EqualsMeaning(doc: Doc, field: string, value: string)
    ensures Matches(doc, field, value, Equals) <==>
              Present(doc, field) && FieldText(doc, field) == Text.Lower(value)
  {
  }

  /** `contains` on one document: the lower-cased value occurs in the lower-cased field. */
  lemma ContainsMeaning(doc: Doc, field: string, value: string)
    ensures Matches(doc, field, value, Contains) <==>
              Present(doc, field) && exists i :: Text.OccursAt(FieldText(doc, field), Text.Lower(value), i)
  {
  }

  /** `startsWith` on one document: the lower-cased value is a prefix of the lower-cased field. */
  lemma StartsWithMeaning(doc: Doc, field: string, value: string)
    ensures Matches(doc, field, value, StartsWith) <==>
              Present(doc, field) && |value| <= |FieldText(doc, field)| &&
              FieldText(doc, field)[..|value|] == Text.Lower(value)
  {
  }

  /** `endsWith` on one document: the lower-cased value is a suffix of the lower-cased field. */
  lemma EndsWithMeaning(doc: Doc, field: string, value: string)
    ensures Matches(doc, field, value, EndsWith) <==>
              Present(doc, field) && |value| <= |FieldText(doc, field)| &&
              FieldText(doc, field)[|FieldText(doc, field)| - |value|..] == Text.Lower(value)
  {
    if Present(doc, field) {
      MatchesOnText(doc, field, value);
      Text.EndsWithLowered(FieldText(doc, field), value);
    }
  }

  /** For a present field, the four text operators are the `Text` built-ins applied to the
      lower-cased string forms of field and value. */
  lemma MatchesOnText(doc: Doc, field: string, value: string)
    requires Present(doc, field)
    ensures Matches(doc, field, value, Equals) == (FieldText(doc, field) == Text.Lower(value))
    ensures Matches(doc, field, value, Contains) == Text.Includes(FieldText(doc, field), Text.Lower(value))
    ensures Matches(doc, field, value, StartsWith) == Text.StartsWith(FieldText(doc, field), Text.Lower(value))
    ensures Matches(doc, field, value, EndsWith) == Text.EndsWith(FieldText(doc, field), Text.Lower(value))
  {
  }

  /** `contains` over a collection: exactly the documents whose field is present and whose
      lower-cased string form has the lower-cased value as a substring. */
  lemma ContainsFilterExact(docs: seq<Doc>, field: string, value: string)
    requires Active(field, value)
    ensures forall d :: d in ApplyFilter(docs, field, value, "contains") <==>
              d in docs && Present(d, field) &&
              exists i :: Text.OccursAt(FieldText(d, field), Text.Lower(value), i)
  {
    assert ParseOperator("contains") == Contains;
    forall d {
      ContainsMeaning(d, field, value);
    }
  }

  /** An operator name outside the known six keeps exactly the documents whose field is
      present and not `null`. */
  lemma UnrecognisedKeepsPresent(docs: seq<Doc>, field: string, value: string, operator: string)
    requires Active(field, value)
    requires operator !in KnownOperatorNames
    ensures forall d :: d in ApplyFilter(docs, field, value, operator) <==> d in docs && Present(d, field)
  {
    assert ParseOperator(operator) == Unrecognised;
  }

  /** `greaterThan` and `lessThan` on one document compare `Number(doc[field])` with
      `Number(value)`; when either is not a number the document is not kept. */
  lemma NumericOperatorsMeaning(doc: Doc, field: string, value: string)
    ensures Matches(doc, field, value, GreaterThan) <==>
              Present(doc, field) && ToNumber(doc[field]).Some? && ParseNumber(value).Some? &&
              ToNumber(doc[field]).value > ParseNumber(value).value
    ensures Matches(doc, field, value, LessThan) <==>
              Present(doc, field) && ToNumber(doc[field]).Some? && ParseNumber(value).Some? &&
              ToNumber(doc[field]).value < ParseNumber(value).value
    ensures !(Matches(doc, field, value, GreaterThan) && Matches(doc, field, value, LessThan))
  {
  }

  /** A value that is not a number empties both numeric filters. */
  lemma NumericFilterOnNaN(docs: seq<Doc>, field: string, value: string)
    requires Active(field, value)
    requires ParseNumber(value).None?
    ensures ApplyFilter(docs, field, value, "greaterThan") == []
    ensures ApplyFilter(docs, field, value, "lessThan") == []
  {
    assert ParseOperator("greaterThan") == GreaterThan;
    assert ParseOperator("lessThan") == LessThan;
    FilterDocsNoneMatching(docs, field, value, GreaterThan);
    FilterDocsNoneMatching(docs, field, value, LessThan);
  }

  /** A numeric field typed back as its own decimal spelling is found by `equals` and by
      neither `greaterThan` nor `lessThan`. */
  lemma NumberMatchesItsSpelling(doc: Doc, field: string, n: int)
    requires field in doc && doc[field] == Num(n)
    ensures Matches(doc, field, IntToDecimal(n), Equals)
    ensures !Matches(doc, field, IntToDecimal(n), GreaterThan)
    ensures !Matches(doc, field, IntToDecimal(n), LessThan)
  {
    LowerOfDecimal(n);
    NumberRoundTrip(n);
  }

  /* ---------------------------------------------------------------------------
     How the operators relate
     --------------------------------------------------------------------------- */

  /** Per document: `equals` implies `startsWith` and `endsWith`, each of which implies
      `contains`, and every operator implies the unrecognised one (presence). */
  lemma MatchImplications(doc: Doc, field: string, value: string, op: Operator)
    ensures Matches(doc, field, value, Equals) ==>
              Matches(doc, field, value, StartsWith) && Matches(doc, field, value, EndsWith)
    ensures Matches(doc, field, value, StartsWith) ==> Matches(doc, field, value, Contains)
    ensures Matches(doc, field, value, EndsWith) ==> Matches(doc, field, value, Contains)
    ensures Matches(doc, field, value, op) ==> Matches(doc, field, value, Unrecognised)
  {
    if Present(doc, field) {
      var docText := FieldText(doc, field);
      var filterText := Text.Lower(value);
      if docText == filterText {
        Text.EqualStartsAndEnds(docText, filterText);
      }
      if Text.StartsWith(docText, filterText) {
        Text.StartsWithIncludes(docText, filterText);
      }
      if Text.EndsWith(docText, filterText) {
        Text.EndsWithIncludes(docText, filterText);
      }
    }
  }

  /** Filtering with a stronger callback yields a subsequence of filtering with a weaker one. */
  lemma {:induction false} FilterDocsMonotone(docs: seq<Doc>, field: string, value: string,
                                              strong: Operator, weak: Operator)
    requires forall d :: d in docs && Matches(d, field, value, strong) ==> Matches(d, field, value, weak)
    ensures IsSubsequence(FilterDocs(docs, field, value, strong), FilterDocs(docs, field, value, weak))
  {
    var a := FilterDocs(docs, field, value, strong);
    var b := FilterDocs(docs, field, value, weak);
    if |docs| == 0 {
      assert Embeds(a, b, []);
    } else {
      var d := docs[0];
      assert forall e :: e in docs[1..] ==> e in docs;
      FilterDocsMonotone(docs[1..], field, value, strong, weak);
      var a' := FilterDocs(docs[1..], field, value, strong);
      var b' := FilterDocs(docs[1..], field, value, weak);
      var idx :| Embeds(a', b', idx);
      if Matches(d, field, value, strong) {
        EmbedsKeep(d, a', b', idx);
        assert Embeds(a, b, [0] + Shift(idx));
      } else if Matches(d, field, value, weak) {
        EmbedsSkip(d, a', b', idx);
        assert Embeds(a, b, Shift(idx));
      } else {
        assert Embeds(a, b, idx);
      }
    }
  }

  /** Whenever one operator implies another on every document, their results nest. */
  lemma ApplyFilterNests(docs: seq<Doc>, field: string, value: string, strong: string, weak: string)
    requires Active(field, value)
    requires forall d :: d in docs && Matches(d, field, value, ParseOperator(strong)) ==>
                         Matches(d, field, value, ParseOperator(weak))
    ensures IsSubsequence(ApplyFilter(docs, field, value, strong), ApplyFilter(docs, field, value, weak))
  {
    FilterDocsMonotone(docs, field, value, ParseOperator(strong), ParseOperator(weak));
  }

  /** Over one collection, one field and one value, the operators' results nest:
      `equals` inside `startsWith` and `endsWith`, and those inside `contains`. With no
      active filter every result is the whole collection, so the nesting is equality. */
  lemma TextResultsNest(docs: seq<Doc>, field: string, value: string)
    ensures IsSubsequence(ApplyFilter(docs, field, value, "equals"), ApplyFilter(docs, field, value, "startsWith"))
    ensures IsSubsequence(ApplyFilter(docs, field, value, "equals"), ApplyFilter(docs, field, value, "endsWith"))
    ensures IsSubsequence(ApplyFilter(docs, field, value, "startsWith"), ApplyFilter(docs, field, value, "contains"))
    ensures IsSubsequence(ApplyFilter(docs, field, value, "endsWith"), ApplyFilter(docs, field, value, "contains"))
  {
    var eq := ApplyFilter(docs, field, value, "equals");
    var sw := ApplyFilter(docs, field, value, "startsWith");
    var ew := ApplyFilter(docs, field, value, "endsWith");
    var co := ApplyFilter(docs, field, value, "contains");
    if Active(field, value) {
      ApplyFilterIsScan(docs, field, value, "equals");
      ApplyFilterIsScan(docs, field, value, "startsWith");
      ApplyFilterIsScan(docs, field, value, "endsWith");
      ApplyFilterIsScan(docs, field, value, "contains");
      ScanTextResultsNest(docs, field, value);
    } else {
      assert eq == docs && sw == docs && ew == docs && co == docs;
      SubsequenceReflexive(docs);
    }
  }

  /** The same nesting for the scan itself, which is what an active filter returns. */
  lemma ScanTextResultsNest(docs: seq<Doc>, field: string, value: string)
    ensures IsSubsequence(FilterDocs(docs, field, value, Equals), FilterDocs(docs, field, value, StartsWith))
    ensures IsSubsequence(FilterDocs(docs, field, value, Equals), FilterDocs(docs, field, value, EndsWith))
    ensures IsSubsequence(FilterDocs(docs, field, value, StartsWith), FilterDocs(docs, field, value, Contains))
    ensures IsSubsequence(FilterDocs(docs, field, value, EndsWith), FilterDocs(docs, field, value, Contains))
  {
    forall d | d in docs {
      MatchImplications(d, field, value, Equals);
    }
    FilterDocsMonotone(docs, field, value, Equals, StartsWith);
    FilterDocsMonotone(docs, field, value, Equals, EndsWith);
    FilterDocsMonotone(docs, field, value, StartsWith, Contains);
    FilterDocsMonotone(docs, field, value, EndsWith, Contains);
  }

  /** Chaining the nestings: the `equals` result lies inside the `contains` result, and the
      results grow in length from `equals` through `startsWith` or `endsWith` to `contains`. */
  lemma EqualsWithinContains(docs: seq<Doc>, field: string, value: string)
    ensures IsSubsequence(ApplyFilter(docs, field, value, "equals"), ApplyFilter(docs, field, value, "contains"))
    ensures |ApplyFilter(docs, field, value, "equals")| <= |ApplyFilter(docs, field, value, "startsWith")|
              <= |ApplyFilter(docs, field, value, "contains")|
    ensures |ApplyFilter(docs, field, value, "equals")| <= |ApplyFilter(docs, field, value, "endsWith")|
              <= |ApplyFilter(docs, field, value, "contains")|
  {
    var eq := ApplyFilter(docs, field, value, "equals");
    var sw := ApplyFilter(docs, field, value, "startsWith");
    var ew := ApplyFilter(docs, field, value, "endsWith");
    var co := ApplyFilter(docs, field, value, "contains");
    TextResultsNest(docs, field, value);
    SubsequenceTransitive(eq, sw, co);
    SubsequenceLength(eq, sw);
    SubsequenceLength(sw, co);
    SubsequenceLength(eq, ew);
    SubsequenceLength(ew, co);
  }

  /** Every operator's result lies inside the unrecognised operator's result, which is
      every document whose field is present. */
  lemma ResultsWithinPresent(docs: seq<Doc>, field: string, value: string, operator: string, other: string)
    requires Active(field, value)
    requires other !in KnownOperatorNames
    ensures IsSubsequence(ApplyFilter(docs, field, value, operator), ApplyFilter(docs, field, value, other))
  {
    forall d | d in docs {
      MatchImplications(d, field, value, ParseOperator(operator));
    }
    assert ParseOperator(other) == Unrecognised;
    ApplyFilterNests(docs, field, value, operator, other);
  }
}
