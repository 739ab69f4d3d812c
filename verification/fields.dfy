/** `extractFields` from dashboard/src/App.jsx: the field names offered in the filter form,
    i.e. every key of every loaded document except `_id`, de-duplicated and sorted. */
module Fields {
  import opened Text
  import opened JsValues

  /** The store-assigned identifier, which is never offered as a filter field. */
  const IdKey: string := "_id"

  /** The contents of the `Set` built by the loop: every non-`_id` key of some document. */
  function FieldSet(docs: seq<Doc>): (fields: set<string>)
    ensures forall k :: k in fields <==> k != IdKey && exists i :: 0 <= i < |docs| && k in docs[i]
  {
    set i, k | 0 <= i < |docs| && k in docs[i] && k != IdKey :: k
  }

  /** Visiting one more document adds its non-`_id` keys. */
  lemma FieldSetExtend(docs: seq<Doc>, i: nat)
    requires i < |docs|
    ensures FieldSet(docs[..i + 1]) == FieldSet(docs[..i]) + (docs[i].Keys - {IdKey})
  {
    var before := docs[..i];
    var after := docs[..i + 1];
    forall k | k in FieldSet(after)
      ensures k in FieldSet(before) + (docs[i].Keys - {IdKey})
    {
      var j :| 0 <= j < |after| && k in after[j];
      if j < i {
        assert before[j] == after[j];
      }
    }
    forall k | k in FieldSet(before)
      ensures k in FieldSet(after)
    {
      var j :| 0 <= j < |before| && k in before[j];
      assert after[j] == before[j];
    }
    assert forall k :: k in docs[i].Keys - {IdKey} ==> k in after[i];
  }

  /* ---------------------------------------------------------------------------
     Sorting
     --------------------------------------------------------------------------- */

  /** Ascending in the default sort order, with no repeated name. */
  predicate StrictlySorted(s: seq<string>) {
    forall i, j :: 0 <= i < j < |s| ==> Below(s[i], s[j])
  }

  /** The first element of a strictly sorted sequence sorts before every other one. */
  lemma SortedHeadLeast(s: seq<string>)
    requires StrictlySorted(s) && |s| > 0
    ensures forall x :: x in s[1..] ==> Below(s[0], x)
    ensures forall x :: x in s[1..] <==> x in s && x != s[0]
  {
    forall x | x in s[1..]
      ensures Below(s[0], x) && x != s[0]
    {
      BelowIrreflexive(s[0]);
    }
  }

  /** `x` inserted at its place in a strictly sorted sequence, unless already there. */
  function Insert(s: seq<string>, x: string): (r: seq<string>)
    requires StrictlySorted(s)
    ensures StrictlySorted(r)
    ensures forall y :: y in r <==> y in s || y == x
    ensures x in s ==> r == s
    ensures x !in s ==> |r| == |s| + 1
  {
    if |s| == 0 then [x]
    else if x == s[0] then s
    else if Below(x, s[0]) then
      assert forall j :: 0 <= j < |s| ==> Below(x, s[j]) by {
        forall j | 0 <= j < |s|
          ensures Below(x, s[j])
        {
          if j > 0 {
            BelowTransitive(x, s[0], s[j]);
          }
        }
      }
      SortedHeadLeast(s);
      BelowIrreflexive(x);
      [x] + s
    else
      BelowTotal(x, s[0]);
      SortedHeadLeast(s);
      var rest := Insert(s[1..], x);
      assert s == [s[0]] + s[1..];
      [s[0]] + rest
  }

  /** `Array.from(fields).sort()` on a set of distinct names, by repeated insertion. */
  method SortFields(fields: set<string>) returns (sorted: seq<string>)
    ensures StrictlySorted(sorted)
    ensures forall k :: k in sorted <==> k in fields
    ensures |sorted| == |fields|
  {
    sorted := [];
    var remaining := fields;
    while remaining != {}
      invariant remaining <= fields
      invariant StrictlySorted(sorted)
      invariant forall k :: k in sorted <==> k in fields - remaining
      invariant |sorted| + |remaining| == |fields|
      decreases remaining
    {
      var k :| k in remaining;
      sorted := Insert(sorted, k);
      remaining := remaining - {k};
    }
  }

  /** `extractFields(dataArray)`: every key other than `_id` that some document has,
      each once, in ascending order. */
  method ExtractFields(docs: seq<Doc>) returns (fields: seq<string>)
    ensures StrictlySorted(fields)
    ensures IdKey !in fields
    ensures forall k :: k in fields <==> k != IdKey && exists i :: 0 <= i < |docs| && k in docs[i]
  {
    var seen: set<string> := {};
    for i := 0 to |docs|
      invariant seen == FieldSet(docs[..i])
    {
      var keys := docs[i].Keys;
      while keys != {}
        invariant keys <= docs[i].Keys
        invariant seen == FieldSet(docs[..i]) + (docs[i].Keys - keys - {IdKey})
        decreases keys
      {
        var key :| key in keys;
        if key != IdKey {
          seen := seen + {key};
        }
        keys := keys - {key};
      }
      FieldSetExtend(docs, i);
    }
    assert docs[..|docs|] == docs;
    fields := SortFields(seen);
  }

  /** Two strictly sorted sequences with the same members are equal: the sorted listing
      of a set of names is unique, so the fields offered depend only on which keys occur. */
  lemma {:induction false} SortedUnique(a: seq<string>, b: seq<string>)
    requires StrictlySorted(a) && StrictlySorted(b)
    requires forall x :: x in a <==> x in b
    ensures a == b
  {
    if |a| > 0 {
      assert a[0] in b;
    }
    if |b| > 0 {
      assert b[0] in a;
    }
    if |a| > 0 && |b| > 0 {
      SortedHeadLeast(a);
      SortedHeadLeast(b);
      if a[0] != b[0] {
        assert Below(a[0], b[0]);
        assert Below(b[0], a[0]);
        BelowAsymmetric(a[0], b[0]);
        assert false;
      }
      SortedUnique(a[1..], b[1..]);
      assert a == [a[0]] + a[1..] && b == [b[0]] + b[1..];
    }
  }
}
