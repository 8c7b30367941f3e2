/** Labelled and positional protobuf records: one record, however its fields are sent. */
module RecordEncodings {
  import opened Wrappers
  import opened JsValues
  import opened DamlTypes
  import opened LedgerValues
  import opened ProtobufConverter
  import opened DecoderAgreement

  lemma SameMembers(fields: seq<PEntry>, permuted: seq<PEntry>)
    requires multiset(fields) == multiset(permuted)
    ensures |fields| == |permuted|
    ensures forall f :: f in fields <==> f in permuted
  {
    assert |multiset(fields)| == |multiset(permuted)|;
    forall f
      ensures f in fields <==> f in permuted
    {
      assert f in multiset(fields) <==> f in multiset(permuted);
    }
  }

  lemma SameLabels(fields: seq<PEntry>, permuted: seq<PEntry>)
    requires forall f :: f in fields <==> f in permuted
    ensures Labels(fields) == Labels(permuted)
    ensures Labelled(fields) <==> Labelled(permuted)
  {
    LabelsOfMembers(fields);
    LabelsOfMembers(permuted);
    if Labelled(fields) {
      forall i | 0 <= i < |permuted|
        ensures permuted[i].key != ""
      {
        assert permuted[i] in fields;
      }
    }
    if Labelled(permuted) {
      forall i | 0 <= i < |fields|
        ensures fields[i].key != ""
      {
        assert fields[i] in permuted;
      }
    }
  }

  lemma LabelsOfMembers(fields: seq<PEntry>)
    ensures Labels(fields) == set f | f in fields :: f.key
  {
    forall name | name in Labels(fields)
      ensures name in set f | f in fields :: f.key
    {
      var i :| 0 <= i < |fields| && fields[i].key == name;
      assert fields[i] in fields;
    }
    forall name | name in set f | f in fields :: f.key
      ensures name in Labels(fields)
    {
      var f :| f in fields && f.key == name;
      var i :| 0 <= i < |fields| && fields[i] == f;
      assert fields[i].key == name;
    }
  }

  lemma SameFound(fields: seq<PEntry>, permuted: seq<PEntry>, name: string)
    requires forall f :: f in fields <==> f in permuted
    requires DistinctEntries(fields)
    ensures FindLabel(fields, name) == -1 <==> FindLabel(permuted, name) == -1
    ensures FindLabel(fields, name) >= 0 ==> fields[FindLabel(fields, name)] == permuted[FindLabel(permuted, name)]
  {
    var i, j := FindLabel(fields, name), FindLabel(permuted, name);
    if i >= 0 {
      assert fields[i] in permuted;
    }
    if j >= 0 {
      assert permuted[j] in fields;
      var k :| 0 <= k < |fields| && fields[k] == permuted[j];
      assert fields[k].key == name;
      assert k == i;
    }
  }

  lemma {:induction false} SameByLabel(fields: seq<PEntry>, permuted: seq<PEntry>, ds: seq<FieldDescriptor>,
      project: Project)
    requires forall f :: f in fields <==> f in permuted
    requires DistinctEntries(fields)
    ensures DecodeByLabel(fields, ds, project) == DecodeByLabel(permuted, ds, project)
    decreases ds
  {
    if ds != [] {
      SameFound(fields, permuted, ds[0].damlLabel);
      SameByLabel(fields, permuted, ds[1..], project);
    }
  }

  /** The order of labelled fields does not matter, whether the record is accepted or not. */
  lemma FieldOrderIrrelevant(fields: seq<PEntry>, permuted: seq<PEntry>, d: Descriptor, project: Project)
    requires Labelled(fields) && multiset(fields) == multiset(permuted) && d.DRecord?
    ensures DecodeProto(PRecord(fields), d, project) == DecodeProto(PRecord(permuted), d, project)
  {
    SameMembers(fields, permuted);
    SameLabels(fields, permuted);
    LabelCount(fields);
    if DistinctEntries(fields) {
      SameByLabel(fields, permuted, d.fields, project);
    }
  }

  function WithLabels(values: seq<Option<PValue>>, ds: seq<FieldDescriptor>): (r: seq<PEntry>)
    requires |values| == |ds|
    ensures |r| == |ds|
    ensures forall i :: 0 <= i < |ds| ==> r[i] == PEntry(ds[i].damlLabel, values[i])
  {
    seq(|ds|, i requires 0 <= i < |ds| => PEntry(ds[i].damlLabel, values[i]))
  }

  function WithoutLabels(values: seq<Option<PValue>>): (r: seq<PEntry>)
    ensures |r| == |values|
    ensures forall i :: 0 <= i < |values| ==> r[i] == PEntry("", values[i])
  {
    seq(|values|, i requires 0 <= i < |values| => PEntry("", values[i]))
  }

  lemma {:induction false} LabelledSuffix(values: seq<Option<PValue>>, ds: seq<FieldDescriptor>, project: Project,
      i: nat)
    requires |values| == |ds| && DistinctExpected(ds) && i <= |ds|
    ensures DecodeByLabel(WithLabels(values, ds), ds[i..], project)
         == DecodeByPosition(WithoutLabels(values)[i..], ds[i..], project)
    decreases |ds| - i
  {
    if i < |ds| {
      var fields, plain := WithLabels(values, ds), WithoutLabels(values);
      LabelledSuffix(values, ds, project, i + 1);
      assert ds[i..][1..] == ds[i + 1..] && plain[i..][1..] == plain[i + 1..];
      assert fields[i].key == ds[i].damlLabel;
      assert FindLabel(fields, ds[i].damlLabel) == i;
      assert DecodeEntry(fields[i], ds[i].ty, project) == DecodeEntry(plain[i], ds[i].ty, project);
    }
  }

  lemma SameRecord(values: seq<Option<PValue>>, ds: seq<FieldDescriptor>, project: Project)
    requires |values| == |ds| && ds != [] && DistinctExpected(ds)
    requires forall i :: 0 <= i < |ds| ==> ds[i].damlLabel != ""
    ensures DecodeProtoRecord(WithLabels(values, ds), ds, project)
         == DecodeProtoRecord(WithoutLabels(values), ds, project)
  {
    var fields, plain := WithLabels(values, ds), WithoutLabels(values);
    LabelCount(fields);
    LabelledSuffix(values, ds, project, 0);
    assert ds[0..] == ds && plain[0..] == plain;
    assert plain[0].key == "";
  }

  /** Every permutation of the labelled encoding of a record decodes as its positional encoding. */
  lemma LabelledIsPositional(values: seq<Option<PValue>>, ds: seq<FieldDescriptor>, permuted: seq<PEntry>,
      project: Project)
    requires |values| == |ds| && ds != [] && DistinctExpected(ds)
    requires forall i :: 0 <= i < |ds| ==> ds[i].damlLabel != ""
    requires multiset(permuted) == multiset(WithLabels(values, ds))
    ensures DecodeProto(PRecord(permuted), DRecord(ds), project)
         == DecodeProto(PRecord(WithoutLabels(values)), DRecord(ds), project)
  {
    FieldOrderIrrelevant(WithLabels(values, ds), permuted, DRecord(ds), project);
    SameRecord(values, ds, project);
  }
}
