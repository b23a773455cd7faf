/** The aggregates the dashboard page shows: the tiles' scalar counts, the ICU
    filter, the Liver/Non-Liver split, the Adult/Paediatric bracket, and the
    row of metric columns; and the bed-status frame that two panels rewrite in
    place. */
module Dashboard {
  import opened Frames
  import opened GroupCounts
  import opened Ages

  // ---------------------------------------------------------------------------
  // bedstatus_data: a frame whose columns the script assigns in place

  class Frame {
    var columns: set<string>
    var rows: array<Row>

    ghost predicate Valid()
      reads this, rows
    {
      Snapshot().Valid()
    }

    /** The frame's current contents as a value. */
    function Snapshot(): Table
      reads this, rows
    {
      Table(columns, rows[..])
    }

    constructor (t: Table)
      requires t.Valid()
      ensures Valid() && Snapshot() == t && fresh(rows)
    {
      columns := t.columns;
      rows := new Row[|t.rows|](i requires 0 <= i < |t.rows| => t.rows[i]);
      new;
      assert rows[..] == t.rows;
    }

    /** df[col] = vals: one cell per row, the column added when it is new. */
    method AssignColumn(col: string, vals: seq<Value>)
      requires Valid() && |vals| == rows.Length
      modifies this, rows
      ensures Valid() && rows == old(rows)
      ensures Snapshot() == WithColumn(old(Snapshot()), col, vals)
    {
      var a := rows;
      ghost var before := a[..];
      var i := 0;
      while i < a.Length
        invariant 0 <= i <= a.Length
        invariant forall k :: 0 <= k < i ==> a[k] == before[k][col := vals[k]]
        invariant forall k :: i <= k < a.Length ==> a[k] == before[k]
        modifies a
      {
        a[i] := a[i][col := vals[i]];
        i := i + 1;
      }
      columns := columns + {col};
      assert a[..] == Assign(before, col, vals);
    }

    /** The speciality column relabelled in place: each speciality becomes
        "Liver" or "Non-Liver". */
    method ClassifySpeciality() returns (failure: Option<Failure>)
      requires Valid()
      modifies this, rows
      ensures Valid() && rows == old(rows)
      ensures "speciality" !in old(columns) ==>
        failure == Some(MissingColumn("speciality")) && Snapshot() == old(Snapshot())
      ensures "speciality" in old(columns) ==> failure == None
      ensures "speciality" in old(columns) ==>
        Snapshot() == WithColumn(old(Snapshot()), "speciality", LiverLabels(Column(old(rows[..]), "speciality")))
    {
      if "speciality" !in columns {
        return Some(MissingColumn("speciality"));
      }
      var labels := LiverLabels(Column(rows[..], "speciality"));
      AssignColumn("speciality", labels);
      return None;
    }

    /** The AgeInYears and AgeGroup assignments, one after the other: a failure
        in the second leaves the first in place. */
    method AddAgeColumns() returns (failure: Option<Failure>)
      requires Valid()
      modifies this, rows
      ensures Valid() && rows == old(rows)
      ensures (Snapshot(), failure) == AgeStep(old(Snapshot()))
    {
      if "age" !in columns {
        return Some(MissingColumn("age"));
      }
      var converted := ConvertAgeColumn(Column(rows[..], "age"));
      if converted.Err? {
        return Some(converted.failure);
      }
      var ages := converted.value;
      AssignColumn("AgeInYears", ages);
      var grouped := AgeGroupColumn(ages);
      if grouped.Err? {
        return Some(grouped.failure);
      }
      AssignColumn("AgeGroup", grouped.value);
      return None;
    }
  }

  // ---------------------------------------------------------------------------
  // Liver / Non-Liver

  const LiverDepartments: seq<string> :=
    ["Hepatology", "Pediatric Hepatology", "Liver Disease and Transplantation"]

  /** The label of one speciality: "Liver" for the listed departments, else
      "Non-Liver"; NaN is in no list. */
  function LiverLabel(v: Value): (tag: Value)
    ensures tag == Text("Liver") || tag == Text("Non-Liver")
    ensures tag == Text("Liver") <==> v.Text? && v.text in LiverDepartments
  {
    if v.Text? && v.text in LiverDepartments then Text("Liver") else Text("Non-Liver")
  }

  function LiverLabels(vals: seq<Value>): (labels: seq<Value>)
    ensures |labels| == |vals|
    ensures forall i :: 0 <= i < |vals| ==> labels[i] == LiverLabel(vals[i])
  {
    seq(|vals|, i requires 0 <= i < |vals| => LiverLabel(vals[i]))
  }

  /** liver_count and non_liver_count: rows whose speciality is exactly the
      label; KeyError without the column. */
  function LiverCounts(t: Table): (r: Result<(nat, nat)>)
    ensures r.Ok? <==> "speciality" in t.columns
    ensures r.Ok? ==> r.value.0 + r.value.1 <= |t.rows|
  {
    if "speciality" !in t.columns then Err(MissingColumn("speciality"))
    else
      var col := Column(t.rows, "speciality");
      CountTwo(col, Text("Liver"), Text("Non-Liver"));
      Ok((Count(col, Text("Liver")), Count(col, Text("Non-Liver"))))
  }

  /** Two distinct values are counted at most once per cell between them. */
  lemma {:induction false} CountTwo(vals: seq<Value>, a: Value, b: Value)
    requires a != b
    ensures Count(vals, a) + Count(vals, b) <= |vals|
  {
    if vals != [] {
      CountTwo(vals[..|vals| - 1], a, b);
    }
  }

  /** The relabelled column splits every row into exactly one bucket, and the
      Liver bucket holds exactly the rows of the three listed departments. */
  lemma {:induction false} LiverSplit(vals: seq<Value>)
    ensures Count(LiverLabels(vals), Text("Liver")) + Count(LiverLabels(vals), Text("Non-Liver")) == |vals|
    ensures Count(LiverLabels(vals), Text("Liver")) ==
      Count(vals, Text("Hepatology")) + Count(vals, Text("Pediatric Hepatology"))
      + Count(vals, Text("Liver Disease and Transplantation"))
  {
    var labels := LiverLabels(vals);
    TwoValued(labels, Text("Liver"), Text("Non-Liver"));
    if vals != [] {
      var init := vals[..|vals| - 1];
      assert labels[..|labels| - 1] == LiverLabels(init);
      LiverSplit(init);
    }
  }

  /** After the in-place rewrite the two tiles add up to the number of beds, and
      the Liver tile counts the beds of the three listed departments. */
  lemma LiverPanel(t: Table)
    requires "speciality" in t.columns
    ensures var t2 := WithColumn(t, "speciality", LiverLabels(Column(t.rows, "speciality")));
      var col := Column(t.rows, "speciality");
      && LiverCounts(t2).Ok?
      && LiverCounts(t2).value.0 + LiverCounts(t2).value.1 == |t.rows|
      && LiverCounts(t2).value.0 == Count(col, Text("Hepatology"))
           + Count(col, Text("Pediatric Hepatology"))
           + Count(col, Text("Liver Disease and Transplantation"))
  {
    LiverSplit(Column(t.rows, "speciality"));
  }

  /** Membership is exact: a longer name that contains "Hepatology" is Non-Liver. */
  lemma LiverIsExactMatch()
    ensures LiverLabel(Text("Hepatology")) == Text("Liver")
    ensures LiverLabel(Text("Hepatology Clinic")) == Text("Non-Liver")
    ensures LiverLabel(Text("Cardiology")) == Text("Non-Liver")
    ensures LiverLabel(Null) == Text("Non-Liver")
  {
  }

  // ---------------------------------------------------------------------------
  // Adult / Paediatric

  /** The frame and the raised failure, if any, after the AgeInYears and
      AgeGroup assignments. */
  function AgeStep(t: Table): (r: (Table, Option<Failure>))
    ensures |r.0.rows| == |t.rows| && (t.Valid() ==> r.0.Valid())
    ensures r.1 == Some(MissingColumn("age")) <==> "age" !in t.columns
    ensures r.1 == None ==> r.0.columns == t.columns + {"AgeInYears", "AgeGroup"}
    ensures forall i :: 0 <= i < |t.rows| ==> Get(r.0.rows[i], "age") == Get(t.rows[i], "age")
  {
    if "age" !in t.columns then (t, Some(MissingColumn("age")))
    else
      match ConvertAgeColumn(Column(t.rows, "age"))
      case Err(e) => (t, Some(e))
      case Ok(ages) =>
        var t1 := WithColumn(t, "AgeInYears", ages);
        match AgeGroupColumn(ages)
        case Err(e) => (t1, Some(e))
        case Ok(labels) => (WithColumn(t1, "AgeGroup", labels), None)
  }

  /** A column of bracket labels: each cell is in one bracket, the value_counts
      keys are bracket labels, and their counts sum to the length. */
  lemma BracketCounts(labels: seq<Value>)
    requires forall i :: 0 <= i < |labels| ==> labels[i] == Text("Adult") || labels[i] == Text("Paediatric")
    ensures Count(labels, Text("Adult")) + Count(labels, Text("Paediatric")) == |labels|
    ensures Total(ValueCounts(labels)) == |labels|
    ensures forall g :: g in ValueCounts(labels) ==> g.key == Text("Adult") || g.key == Text("Paediatric")
  {
    TwoValued(labels, Text("Adult"), Text("Paediatric"));
    var gs := ValueCounts(labels);
    BracketTotal(labels, gs);
    BracketKeys(labels, gs);
  }

  lemma BracketTotal(labels: seq<Value>, gs: seq<Group>)
    requires forall i :: 0 <= i < |labels| ==> labels[i] == Text("Adult") || labels[i] == Text("Paediatric")
    requires IsTallyOf(labels, gs)
    ensures Total(gs) == |labels|
  {
    GroupTotal(labels, gs);
    NonNullOfTotal(labels);
  }

  lemma BracketKeys(labels: seq<Value>, gs: seq<Group>)
    requires forall i :: 0 <= i < |labels| ==> labels[i] == Text("Adult") || labels[i] == Text("Paediatric")
    requires IsTallyOf(labels, gs)
    ensures forall g :: g in gs ==> g.key == Text("Adult") || g.key == Text("Paediatric")
  {
    forall g | g in gs ensures g.key == Text("Adult") || g.key == Text("Paediatric") {
      CountPositive(labels, g.key);
    }
  }

  /** When the age panel succeeds, each bed is in exactly one bracket, Adult
      exactly when its converted age is at least 18, and the value_counts of
      the brackets sum to the number of beds (the tile total). */
  lemma AgeBrackets(t: Table)
    requires AgeStep(t).1 == None
    ensures var groups := Column(AgeStep(t).0.rows, "AgeGroup");
      && |groups| == |t.rows|
      && Count(groups, Text("Adult")) + Count(groups, Text("Paediatric")) == |t.rows|
      && Total(ValueCounts(groups)) == |t.rows|
      && (forall g :: g in ValueCounts(groups) ==> g.key == Text("Adult") || g.key == Text("Paediatric"))
      && (forall i :: 0 <= i < |t.rows| ==>
            ConvertAgeValue(Get(t.rows[i], "age")).Ok?
            && (groups[i] == Text("Adult") <==> IsAdult(ConvertAgeValue(Get(t.rows[i], "age")).value)))
  {
    var col := Column(t.rows, "age");
    var ages := ConvertAgeColumn(col).value;
    var labels := AgeGroupColumn(ages).value;
    assert AgeStep(t).0 == WithColumn(WithColumn(t, "AgeInYears", ages), "AgeGroup", labels);
    BracketCounts(labels);
    forall i | 0 <= i < |t.rows|
      ensures ConvertAgeValue(Get(t.rows[i], "age")) == Ok(ages[i])
    {
      assert col[i] == Get(t.rows[i], "age");
    }
  }

  /** A bed with no age, or an age int() refuses, makes the age panel raise. */
  lemma AgeStepFailures(t: Table, i: nat)
    requires "age" in t.columns && i < |t.rows|
    ensures Get(t.rows[i], "age") == Null ==> AgeStep(t).1.Some?
    ensures (exists s :: Get(t.rows[i], "age") == Text(s) && ConvertAge(s).Err?) ==> AgeStep(t).1.Some?
  {
    var col := Column(t.rows, "age");
    assert col[i] == Get(t.rows[i], "age");
  }

  /** A frame with beds but no usable age in any of them (each bed's age a
      string that convert_age maps to None) raises at the comparison instead
      of counting every bed as Paediatric. */
  lemma NoUsableAgeRaises(t: Table)
    requires "age" in t.columns && |t.rows| > 0
    requires forall i :: 0 <= i < |t.rows| ==>
      Get(t.rows[i], "age").Text? && ConvertAge(Get(t.rows[i], "age").text) == Ok(None)
    ensures AgeStep(t).1 == Some(Unordered)
  {
    var col := Column(t.rows, "age");
    var rs := ConvertEach(col);
    forall i | 0 <= i < |rs| ensures rs[i] == Ok(Null) {
      assert col[i] == Get(t.rows[i], "age");
    }
    NullsCollect(rs);
  }

  /** When every cell converts to None, the apply gives a column of NaN. */
  lemma NullsCollect(rs: seq<Result<Value>>)
    requires forall i :: 0 <= i < |rs| ==> rs[i] == Ok(Null)
    ensures Collect(rs).Ok? && forall i :: 0 <= i < |rs| ==> Collect(rs).value[i] == Null
  {
  }

  lemma UnknownIsNoAge()
    ensures ConvertAge("unknown") == Ok(None)
  {
    OtherSuffixIsNone("unknow", 'n');
    assert "unknow" + ['n'] == "unknown";
  }

  // ---------------------------------------------------------------------------
  // ICU

  /** Whether `pat` occurs in `s` as a contiguous substring. */
  predicate Contains(s: string, pat: string) {
    exists i :: 0 <= i <= |s| && OccursAt(s, pat, i)
  }

  predicate OccursAt(s: string, pat: string, i: int) {
    0 <= i && i + |pat| <= |s| && s[i..i + |pat|] == pat
  }

  /** `ward.str.contains("ICU")` for a string cell: the default regex "ICU" has
      no metacharacters, so it is a case-sensitive substring test. */
  predicate IsIcuWard(v: Value): (b: bool)
    ensures b ==> v.Text? && |v.text| >= 3
  {
    v.Text? && Contains(v.text, "ICU")
  }

  /** The test is a case-sensitive substring test: "MICU" and "ICU-2" are ICU
      wards, "Icu Ward" is not. */
  lemma IcuIsCaseSensitive()
    ensures IsIcuWard(Text("MICU")) && IsIcuWard(Text("ICU-2"))
    ensures !IsIcuWard(Text("Icu Ward")) && !IsIcuWard(Null)
  {
    assert OccursAt("MICU", "ICU", 1);
    assert OccursAt("ICU-2", "ICU", 0);
    forall i | 0 <= i <= |"Icu Ward"| ensures !OccursAt("Icu Ward", "ICU", i) {
      if i + 3 <= |"Icu Ward"| {
        assert "Icu Ward"[i..i + 3][1] == "Icu Ward"[i + 1] != 'C';
      }
    }
  }

  /** The ward column of bedstatus_data[mask]: the ICU wards, in row order. */
  function IcuFilter(vals: seq<Value>): (r: seq<Value>)
    ensures forall v :: Count(r, v) == if IsIcuWard(v) then Count(vals, v) else 0
    ensures forall i :: 0 <= i < |r| ==> IsIcuWard(r[i])
    ensures |r| <= NonNull(vals)
  {
    if vals == [] then []
    else
      var init := vals[..|vals| - 1];
      var v := vals[|vals| - 1];
      var rest := IcuFilter(init);
      if IsIcuWard(v) then
        var r := rest + [v];
        assert r[..|r| - 1] == rest;
        r
      else rest
  }

  /** icu_counts: KeyError without a ward column; a NaN ward makes the mask
      non-boolean and the indexing raise; otherwise the group count of the
      ICU wards. */
  function IcuCounts(t: Table): (r: Result<seq<Group>>)
    ensures r.Ok? <==> "ward" in t.columns && forall i :: 0 <= i < |t.rows| ==> Get(t.rows[i], "ward").Text?
    ensures r.Ok? ==> IsGroupCountOf(IcuFilter(Column(t.rows, "ward")), r.value)
  {
    if "ward" !in t.columns then Err(MissingColumn("ward"))
    else
      var wards := Column(t.rows, "ward");
      if exists i :: 0 <= i < |wards| && !wards[i].Text? then Err(NullInMask)
      else Ok(ValueCounts(IcuFilter(wards)))
  }

  /** A group of the ICU tally is a ward group whose name contains "ICU". */
  lemma IcuGroupIsWardGroup(wards: seq<Value>, icu: seq<Group>, all: seq<Group>, g: Group)
    requires IsTallyOf(IcuFilter(wards), icu) && IsTallyOf(wards, all) && g in icu
    ensures g in all && IsIcuWard(g.key)
  {
    var filtered := IcuFilter(wards);
    assert Count(filtered, g.key) >= 1;
    CountPositive(wards, g.key);
    var j :| 0 <= j < |wards| && wards[j] == g.key;
    var i :| 0 <= i < |all| && all[i].key == wards[j];
    assert all[i] == g;
  }

  /** A ward group whose name contains "ICU" is a group of the ICU tally. */
  lemma WardGroupIsIcuGroup(wards: seq<Value>, icu: seq<Group>, all: seq<Group>, g: Group)
    requires IsTallyOf(IcuFilter(wards), icu) && IsTallyOf(wards, all) && g in all && IsIcuWard(g.key)
    ensures g in icu
  {
    var filtered := IcuFilter(wards);
    CountPositive(filtered, g.key);
    var j :| 0 <= j < |filtered| && filtered[j] == g.key;
    var i :| 0 <= i < |icu| && icu[i].key == filtered[j];
    assert icu[i] == g;
  }

  /** The ICU chart holds exactly the ward groups whose name contains "ICU",
      with the same counts, so the ICU tile counts the beds in such wards and
      is never larger than the ward tile. */
  lemma IcuWithinWards(t: Table)
    requires IcuCounts(t).Ok?
    ensures var icu := IcuCounts(t).value;
      var all := GroupCount(t, "ward").value;
      && (forall g :: g in icu <==> g in all && IsIcuWard(g.key))
      && Total(icu) == |IcuFilter(Column(t.rows, "ward"))|
      && Total(icu) <= Total(all)
  {
    var wards := Column(t.rows, "ward");
    var filtered := IcuFilter(wards);
    var icu := IcuCounts(t).value;
    var all := GroupCount(t, "ward").value;
    forall g | g in icu ensures g in all && IsIcuWard(g.key) {
      IcuGroupIsWardGroup(wards, icu, all, g);
    }
    forall g | g in all && IsIcuWard(g.key) ensures g in icu {
      WardGroupIsIcuGroup(wards, icu, all, g);
    }
    GroupTotal(filtered, icu);
    NonNullOfTotal(filtered);
    GroupTotal(wards, all);
  }

  // ---------------------------------------------------------------------------
  // Scalar tiles

  /** opd_count as guarded at dash1.py:203-207: the non-null patient names, or 0
      when the frame has no patientName column. */
  function OpdCount(opd: Table): (n: nat)
    ensures "patientName" !in opd.columns ==> n == 0
    ensures "patientName" in opd.columns ==> Ok(n) == SeriesCount(opd, "patientName")
    ensures n <= |opd.rows|
  {
    if "patientName" in opd.columns then NonNull(Column(opd.rows, "patientName")) else 0
  }

  /** dash1.py:212 recomputes the tile's count without the guard, so on the frame
      of an empty or failed OPD feed (no columns) it raises KeyError where the
      guarded count is 0. */
  lemma OpdTileRaisesOnEmptyFeed()
    ensures SeriesCount(FromRecords([]), "patientName") == Err(MissingColumn("patientName"))
    ensures OpdCount(FromRecords([])) == 0
  {
  }

  /** dash1.py:277-280: the uhid-filtered counts are computed (and raise without a
      uhid column) and then replaced by the plain row counts. */
  method MovementCounts(admissions: Table, discharges: Table) returns (r: Result<(nat, nat)>)
    ensures r.Ok? <==> "uhid" in admissions.columns && "uhid" in discharges.columns
    ensures r.Err? ==> r.failure == MissingColumn("uhid")
    ensures r.Ok? ==> r.value == (|admissions.rows|, |discharges.rows|)
  {
    var filtered := FilterCount(admissions, "uhid", Text("Admitted"));
    if filtered.Err? {
      return Err(filtered.failure);
    }
    var admissionCount := filtered.value;
    filtered := FilterCount(discharges, "uhid", Text("Discharged"));
    if filtered.Err? {
      return Err(filtered.failure);
    }
    var dischargeCount := filtered.value;
    admissionCount := |admissions.rows|;
    dischargeCount := |discharges.rows|;
    return Ok((admissionCount, dischargeCount));
  }

  // ---------------------------------------------------------------------------
  // create_columns

  datatype Metric = Metric(title: string, value: int)

  /** The default num_columns of create_columns. */
  const DefaultColumns: nat := 3

  /** create_columns(data, num_columns): column slot i shows data[i] when there
      is one and stays empty otherwise. Streamlit refuses st.columns(0). */
  method CreateColumns(data: seq<Metric>, numColumns: nat) returns (slots: seq<Option<Metric>>)
    requires numColumns > 0
    ensures |slots| == numColumns
    ensures forall i :: 0 <= i < numColumns ==>
      slots[i] == if i < |data| then Some(data[i]) else None
  {
    slots := [];
    for i := 0 to numColumns
      invariant |slots| == i
      invariant forall k :: 0 <= k < i ==> slots[k] == if k < |data| then Some(data[k]) else None
    {
      if i < |data| {
        slots := slots + [Some(data[i])];
      } else {
        slots := slots + [None];
      }
    }
  }

  /** The number of slots that show a metric. */
  function Shown(slots: seq<Option<Metric>>): nat {
    if slots == [] then 0 else Shown(slots[..|slots| - 1]) + (if slots[|slots| - 1].Some? then 1 else 0)
  }

  /** A row of slots laid out as create_columns does shows exactly
      min(num_columns, len(data)) metrics. */
  lemma {:induction false} MetricsShown(data: seq<Metric>, slots: seq<Option<Metric>>)
    requires forall i :: 0 <= i < |slots| ==> slots[i] == if i < |data| then Some(data[i]) else None
    ensures Shown(slots) == if |slots| < |data| then |slots| else |data|
  {
    if slots != [] {
      var init := slots[..|slots| - 1];
      assert forall i :: 0 <= i < |init| ==> init[i] == slots[i];
      MetricsShown(data, init);
    }
  }

  /** The Liver panel's call: two metrics in the default three columns fill
      the first two slots in order and leave the third empty. */
  lemma LiverMetricsRow(liver: int, nonLiver: int, slots: seq<Option<Metric>>)
    requires var data := [Metric("Liver", liver), Metric("Non-Liver", nonLiver)];
      |slots| == DefaultColumns
      && forall i :: 0 <= i < |slots| ==> slots[i] == if i < |data| then Some(data[i]) else None
    ensures slots == [Some(Metric("Liver", liver)), Some(Metric("Non-Liver", nonLiver)), None]
    ensures Shown(slots) == 2
  {
    MetricsShown([Metric("Liver", liver), Metric("Non-Liver", nonLiver)], slots);
  }
}
