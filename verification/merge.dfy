/**
 The default merger of `merge/merge.go`: a deep copy of values and a fold of
 struct inputs into one fresh struct, where the last input defining a
 top-level key decides that key's value.
 */
module Merge {
  import opened Values

  /** `copyValue`: a deep copy. Nil nodes and unknown kinds become
      `NullValue` at any depth; structs are rebuilt by merging into an empty
      struct and lists by appending to an empty list, so each field and item
      is copied on its own and well-formed siblings of a nil node survive. */
  function Copy(v: Value): (r: Value)
    ensures WellFormed(r)
    ensures WellFormed(v) ==> r == v
    ensures v.Absent? || v.Unknown? ==> r == NullValue
    ensures v.StructValue? ==> r.StructValue? && r.fields.Keys == v.fields.Keys
    ensures v.StructValue? ==> forall k :: k in v.fields ==> r.fields[k] == Copy(v.fields[k])
    ensures v.ListValue? ==> r.ListValue? && |r.items| == |v.items|
    ensures v.ListValue? ==> forall i :: 0 <= i < |v.items| ==> r.items[i] == Copy(v.items[i])
    decreases v, 1
  {
    match v
    case Absent => NullValue
    case Unknown => NullValue
    case NullValue => NullValue
    case NumberValue(n) => NumberValue(n)
    case StringValue(s) => StringValue(s)
    case BoolValue(b) => BoolValue(b)
    case StructValue(fields) =>
      var copied := MergeStruct(map[], fields);
      SameFields(fields, copied);
      StructValue(copied)
    case ListValue(items) =>
      var copied := MergeList([], items);
      SameItems(items, copied);
      ListValue(copied)
  }

  /** A nil field inside a struct becomes `NullValue` while its
      well-formed sibling is kept as it was. */
  lemma CopyKeepsSiblings()
    ensures Copy(StructValue(map["a" := Absent, "b" := NumberValue(1.0)]))
            == StructValue(map["a" := NullValue, "b" := NumberValue(1.0)])
  {
  }

  /** A field map whose every field is a well-formed value, copied field by
      field, is well formed, and is the same map when the original was. */
  lemma SameFields(fields: Fields, copied: Fields)
    requires copied.Keys == fields.Keys
    requires forall k :: k in fields ==> WellFormed(copied[k])
    requires forall k :: k in fields && WellFormed(fields[k]) ==> copied[k] == fields[k]
    ensures WellFormed(StructValue(copied))
    ensures WellFormed(StructValue(fields)) ==> copied == fields
  {
  }

  /** The same for the items of a list. */
  lemma SameItems(items: seq<Value>, copied: seq<Value>)
    requires |copied| == |items|
    requires forall i :: 0 <= i < |items| ==> WellFormed(copied[i])
    requires forall i :: 0 <= i < |items| && WellFormed(items[i]) ==> copied[i] == items[i]
    ensures WellFormed(ListValue(copied))
    ensures WellFormed(ListValue(items)) ==> copied == items
  {
  }

  /** `mergeStruct`: every field of `source` is copied into `target`,
      replacing whatever `target` held under that key. */
  function MergeStruct(target: Fields, source: Fields): (r: Fields)
    ensures r.Keys == target.Keys + source.Keys
    ensures forall k :: k in source ==> r[k] == Copy(source[k])
    ensures forall k :: k in target && k !in source ==> r[k] == target[k]
    decreases StructValue(source), 0
  {
    var copies := map k | k in source :: Copy(source[k]);
    assert copies.Keys == source.Keys;
    target + copies
  }

  /** `mergeList`: copies of the items of `source` are appended, in order,
      after the untouched items of `target`. */
  function MergeList(target: seq<Value>, source: seq<Value>): (r: seq<Value>)
    ensures |r| == |target| + |source|
    ensures r[..|target|] == target
    ensures forall i :: 0 <= i < |source| ==> r[|target| + i] == Copy(source[i])
    decreases ListValue(source), 0
  {
    target + seq(|source|, i requires 0 <= i < |source| => Copy(source[i]))
  }

  /** Input `i` is the last of `values` that defines key `k`. */
  predicate LastDefines(values: seq<Fields>, i: int, k: string) {
    && 0 <= i < |values|
    && k in values[i]
    && forall j :: i < j < |values| ==> k !in values[j]
  }

  /** The declarative meaning of a merge of `values`: a well-formed struct
      whose keys are exactly the keys some input defines, each holding a
      copy of the value from the last input that defines it. */
  ghost predicate IsMergeOf(values: seq<Fields>, r: Fields) {
    && WellFormedFields(r)
    && (forall k :: k in r <==> exists i :: 0 <= i < |values| && k in values[i])
    && (forall i, k :: LastDefines(values, i, k) ==> k in r && r[k] == Copy(values[i][k]))
  }

  /** `merger.Merge`: the inputs are folded, first to last, into an empty
      struct. A nil input has no fields and is represented by an empty map. */
  function Merge(values: seq<Fields>): (r: Fields)
    ensures IsMergeOf(values, r)
  {
    if |values| == 0 then map[]
    else
      var front, last := values[..|values| - 1], values[|values| - 1];
      assert values == front + [last];
      FoldStep(front, last, Merge(front));
      MergeStruct(Merge(front), last)
  }

  /** One turn of the fold keeps `IsMergeOf`. */
  lemma FoldStep(front: seq<Fields>, last: Fields, m: Fields)
    requires IsMergeOf(front, m)
    ensures IsMergeOf(front + [last], MergeStruct(m, last))
  {
    FoldStepWellFormed(m, last);
    FoldStepKeys(front, last, m);
    FoldStepValues(front, last, m);
  }

  /** One turn of the fold keeps the struct well formed. */
  lemma FoldStepWellFormed(m: Fields, last: Fields)
    requires WellFormedFields(m)
    ensures WellFormedFields(MergeStruct(m, last))
  {
  }

  /** The keys after one turn of the fold. */
  lemma FoldStepKeys(front: seq<Fields>, last: Fields, m: Fields)
    requires forall k :: k in m <==> exists i :: 0 <= i < |front| && k in front[i]
    ensures forall k :: k in MergeStruct(m, last) <==> exists i :: 0 <= i < |front| + 1 && k in (front + [last])[i]
  {
    var values, r := front + [last], MergeStruct(m, last);
    assert values[|front|] == last;
    assert forall i :: 0 <= i < |front| ==> values[i] == front[i];
    forall k | k in r
      ensures exists i :: 0 <= i < |values| && k in values[i]
    {
      if k !in last {
        var i :| 0 <= i < |front| && k in front[i];
        assert k in values[i];
      }
    }
    forall k | exists i :: 0 <= i < |values| && k in values[i]
      ensures k in r
    {
      var i :| 0 <= i < |values| && k in values[i];
      if i < |front| { assert k in front[i]; }
    }
  }

  /** The values after one turn of the fold. */
  lemma FoldStepValues(front: seq<Fields>, last: Fields, m: Fields)
    requires forall i, k :: LastDefines(front, i, k) ==> k in m && m[k] == Copy(front[i][k])
    ensures forall i, k :: LastDefines(front + [last], i, k)
              ==> k in MergeStruct(m, last) && MergeStruct(m, last)[k] == Copy((front + [last])[i][k])
  {
    var values, r := front + [last], MergeStruct(m, last);
    forall i, k | LastDefines(values, i, k)
      ensures k in r && r[k] == Copy(values[i][k])
    {
      if i < |front| {
        assert values[|front|] == last;
        assert values[i] == front[i];
        assert LastDefines(front, i, k) by {
          forall j | i < j < |front| ensures k !in front[j] {
            assert values[j] == front[j];
          }
        }
      }
    }
  }

  /** `IsMergeOf` pins the result down: two results meeting it are equal. */
  lemma MergeOfIsUnique(values: seq<Fields>, r1: Fields, r2: Fields)
    requires IsMergeOf(values, r1) && IsMergeOf(values, r2)
    ensures r1 == r2
  {
    forall k | k in r1
      ensures r1[k] == r2[k]
    {
      var j :| 0 <= j < |values| && k in values[j];
      var i := LastIndex(values, k, j);
    }
  }

  /** Copying twice is copying once: the copy is already well formed. */
  lemma {:induction false} CopyIdempotent(v: Value)
    ensures Copy(Copy(v)) == Copy(v)
  {
  }

  /** Merging nothing yields an empty struct. */
  lemma MergeOfNothing()
    ensures Merge([]) == map[]
  {
  }

  /** Appending one more input: its keys win, every other key keeps the
      value the earlier inputs gave it. */
  lemma MergeLastWins(values: seq<Fields>, last: Fields)
    ensures Merge(values + [last]).Keys == Merge(values).Keys + last.Keys
    ensures forall k :: k in last ==> Merge(values + [last])[k] == Copy(last[k])
    ensures forall k :: k in Merge(values) && k !in last ==> Merge(values + [last])[k] == Merge(values)[k]
  {
    assert (values + [last])[..|values|] == values;
  }

  /** A later struct replaces an earlier struct under the same key as a
      whole: the merged inner keys are exactly the later struct's, so an
      inner key only the earlier struct had is gone. */
  lemma MergeReplacesWholesale(a: Fields, b: Fields, k: string)
    requires k in a && k in b
    requires a[k].StructValue? && b[k].StructValue?
    ensures Merge([a, b])[k].StructValue?
    ensures Merge([a, b])[k].fields.Keys == b[k].fields.Keys
    ensures forall inner :: inner in a[k].fields && inner !in b[k].fields ==> inner !in Merge([a, b])[k].fields
  {
    assert LastDefines([a, b], 1, k);
  }

  /** An input with no fields contributes nothing, wherever it stands. */
  lemma MergeIgnoresEmpty(values: seq<Fields>, i: nat)
    requires i <= |values|
    ensures Merge(values[..i] + [map[]] + values[i..]) == Merge(values)
  {
    var padded := values[..i] + [map[]] + values[i..];
    InsertEmptyKeepsMerge(values, i, Merge(values));
    MergeOfIsUnique(padded, Merge(values), Merge(padded));
  }

  /** `IsMergeOf` survives inserting an input with no fields. */
  lemma InsertEmptyKeepsMerge(values: seq<Fields>, i: nat, r: Fields)
    requires i <= |values|
    requires IsMergeOf(values, r)
    ensures IsMergeOf(values[..i] + [map[]] + values[i..], r)
  {
    var padded := values[..i] + [map[]] + values[i..];
    assert |padded| == |values| + 1;
    assert forall j :: 0 <= j < i ==> padded[j] == values[j];
    assert forall j :: i < j < |padded| ==> padded[j] == values[j - 1];
    assert padded[i] == map[];
    forall k | k in r
      ensures exists j :: 0 <= j < |padded| && k in padded[j]
    {
      var j :| 0 <= j < |values| && k in values[j];
      if j < i { assert k in padded[j]; } else { assert k in padded[j + 1]; }
    }
    forall j, k | LastDefines(padded, j, k)
      ensures k in r && r[k] == Copy(padded[j][k])
    {
      var j' := if j < i then j else j - 1;
      assert padded[j] == values[j'];
      assert LastDefines(values, j', k) by {
        forall m | j' < m < |values| ensures k !in values[m] {
          if m < i { assert padded[m] == values[m]; }
          else { assert padded[m + 1] == values[m]; }
        }
      }
    }
  }

  /** The last input at or after `from` that defines `k`. */
  lemma LastIndex(values: seq<Fields>, k: string, from: int) returns (i: int)
    requires 0 <= from < |values| && k in values[from]
    ensures from <= i && LastDefines(values, i, k)
    decreases |values| - from
  {
    if exists j :: from < j < |values| && k in values[j] {
      var j :| from < j < |values| && k in values[j];
      i := LastIndex(values, k, j);
    } else {
      i := from;
    }
  }

  /** Merging a merge result on its own reproduces it. */
  lemma MergeIdempotent(values: seq<Fields>)
    ensures Merge([Merge(values)]) == Merge(values)
  {
    var r := Merge(values);
    var one := [r];
    forall k
      ensures k in r <==> exists i :: 0 <= i < |one| && k in one[i]
    {
      if k in r {
        assert k in one[0];
      }
    }
    forall i, k | LastDefines(one, i, k)
      ensures k in r && r[k] == Copy(one[i][k])
    {
      assert one[i] == r;
    }
    assert IsMergeOf(one, r);
    MergeOfIsUnique(one, Merge(one), r);
  }

  /** The first scenario of merge/merge_test.go: `address` of the later
      input replaces the earlier one, so `city` is gone and `zip` stays. */
  lemma MergeStructsExample()
    ensures
      var s1 := map["name" := StringValue("John"), "age" := NumberValue(30.0),
                    "address" := StructValue(map["city" := StringValue("New York")])];
      var s2 := map["age" := NumberValue(31.0),
                    "address" := StructValue(map["zip" := StringValue("10001")]),
                    "email" := StringValue("john@example.com")];
      Merge([s1, s2]) ==
        map["name" := StringValue("John"), "age" := NumberValue(31.0),
            "address" := StructValue(map["zip" := StringValue("10001")]),
            "email" := StringValue("john@example.com")]
  {
    var zip := StructValue(map["zip" := StringValue("10001")]);
    var s1 := map["name" := StringValue("John"), "age" := NumberValue(30.0),
                  "address" := StructValue(map["city" := StringValue("New York")])];
    var s2 := map["age" := NumberValue(31.0), "address" := zip,
                  "email" := StringValue("john@example.com")];
    var want := map["name" := StringValue("John"), "age" := NumberValue(31.0),
                    "address" := zip, "email" := StringValue("john@example.com")];
    var values := [s1, s2];
    assert WellFormed(zip);
    assert WellFormedFields(want);
    assert forall k :: k in want <==> k in s1 || k in s2;
    forall k | k in want
      ensures exists j :: 0 <= j < |values| && k in values[j]
    {
      if k in s2 { assert k in values[1]; } else { assert k in values[0]; }
    }
    forall j, k | LastDefines(values, j, k)
      ensures k in want && want[k] == Copy(values[j][k])
    {
      if j == 0 {
        assert k !in values[1];
        assert k == "name";
      } else {
        assert k in s2;
        assert WellFormed(s2[k]);
      }
    }
    assert IsMergeOf(values, want);
    MergeOfIsUnique(values, want, Merge(values));
  }

  /** Order encodes precedence: swapping two inputs that disagree on a key
      changes the result. */
  lemma MergeNotCommutative()
    ensures Merge([map["x" := NumberValue(1.0)], map["x" := NumberValue(2.0)]])
         != Merge([map["x" := NumberValue(2.0)], map["x" := NumberValue(1.0)]])
  {
    var a, b := map["x" := NumberValue(1.0)], map["x" := NumberValue(2.0)];
    assert LastDefines([a, b], 1, "x");
    assert LastDefines([b, a], 1, "x");
  }
}
