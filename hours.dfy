/**
 * Opening hours (`get_business_timings`). The schedule table is given as the
 * rows it holds: each row's day label and the stripped texts of the list
 * items in its second cell. `None` stands for a page without the table.
 */
module Hours {
  import opened Wrappers
  import opened Text

  /** The valid day names, compared exactly and case-sensitively. */
  const Weekdays: seq<string> :=
    ["Monday", "Tuesday", "Wednesday", "Thursday", "Friday", "Saturday", "Sunday"]

  predicate IsWeekday(d: string) {
    d in Weekdays
  }

  datatype HoursRow = HoursRow(day: string, timings: seq<string>)

  /** The data-quality fault raised for a day label that is not a weekday name. */
  datatype HoursError = InvalidDay(day: string)

  /** A row's value: its list-item texts joined with "," and every whitespace
      run then replaced by one space. */
  function HoursValue(timings: seq<string>): string {
    CollapseWhitespace(Join(timings, ","))
  }

  /** The day labels of the rows, in table order. */
  function Labels(rows: seq<HoursRow>): (ls: seq<string>)
    ensures |ls| == |rows|
  {
    if rows == [] then [] else Labels(rows[..|rows| - 1]) + [rows[|rows| - 1].day]
  }

  /** The dict built row by row; a later row with the same label overwrites an earlier one. */
  function HoursTable(rows: seq<HoursRow>): map<string, string> {
    if rows == [] then map[]
    else
      var row := rows[|rows| - 1];
      HoursTable(rows[..|rows| - 1])[row.day := HoursValue(row.timings)]
  }

  /** The dict's keys in iteration order: the order in which each label was first inserted. */
  function KeyOrder(ls: seq<string>): seq<string> {
    if ls == [] then []
    else
      var front := KeyOrder(ls[..|ls| - 1]);
      var d := ls[|ls| - 1];
      front + (if d in front then [] else [d])
  }

  /** The first label in `ks` that is not a weekday name. */
  function FirstInvalid(ks: seq<string>): Option<string> {
    if ks == [] then None
    else if !IsWeekday(ks[0]) then Some(ks[0])
    else FirstInvalid(ks[1..])
  }

  /** The result of `get_business_timings`: the validation loop walks the dict's
      keys in iteration order and raises for the first that is not a weekday. */
  function BusinessTimings(table: Option<seq<HoursRow>>): Result<map<string, string>, HoursError> {
    match table
    case None => Ok(map[])
    case Some(rows) =>
      match FirstInvalid(KeyOrder(Labels(rows)))
      case Some(d) => Err(InvalidDay(d))
      case None => Ok(HoursTable(rows))
  }

  /** `get_business_timings`: a first loop fills the dict, a second validates its keys. */
  method GetBusinessTimings(table: Option<seq<HoursRow>>)
    returns (r: Result<map<string, string>, HoursError>)
    ensures r == BusinessTimings(table)
  {
    var hours: map<string, string> := map[];
    var order: seq<string> := [];
    if table.Some? {
      var rows := table.value;
      for i := 0 to |rows|
        invariant hours == HoursTable(rows[..i])
        invariant order == KeyOrder(Labels(rows[..i]))
      {
        var row := rows[i];
        assert rows[..i + 1][..i] == rows[..i];
        KeyOrderTracksTable(rows[..i], row.day);
        if row.day !in hours {
          order := order + [row.day];
        }
        hours := hours[row.day := HoursValue(row.timings)];
      }
      assert rows[..|rows|] == rows;
    }
    var invalid: Option<string> := None;
    for j := 0 to |order|
      invariant invalid.None?
      invariant forall k :: 0 <= k < j ==> IsWeekday(order[k])
    {
      if !IsWeekday(order[j]) {
        FirstInvalidAt(order, j);
        invalid := Some(order[j]);
        break;
      }
    }
    TimingsOfParts(table, hours, order);
    if invalid.None? {
      assert forall k :: 0 <= k < |order| ==> IsWeekday(order[k]);
      FirstInvalidNone(order);
      r := Ok(hours);
    } else {
      r := Err(InvalidDay(invalid.value));
    }
  }

  // ---------------------------------------------------------------------
  // Lemmas about the specification

  /** `BusinessTimings` from the filled dict and its key order. */
  lemma TimingsOfParts(table: Option<seq<HoursRow>>, hours: map<string, string>, order: seq<string>)
    requires table.None? ==> hours == map[] && order == []
    requires table.Some? ==> hours == HoursTable(table.value) && order == KeyOrder(Labels(table.value))
    ensures BusinessTimings(table) == match FirstInvalid(order)
      case Some(d) => Err(InvalidDay(d))
      case None => Ok(hours)
  {
  }

  lemma {:induction false} LabelsAt(rows: seq<HoursRow>, i: int)
    requires 0 <= i < |rows|
    ensures Labels(rows)[i] == rows[i].day
  {
    if i < |rows| - 1 {
      LabelsAt(rows[..|rows| - 1], i);
    }
  }

  /** The dict's keys are exactly the labels that occur in the table. */
  lemma {:induction false} HoursTableKeys(rows: seq<HoursRow>)
    ensures forall d :: d in HoursTable(rows) <==> d in Labels(rows)
  {
    if rows != [] {
      HoursTableKeys(rows[..|rows| - 1]);
    }
  }

  /** A label has been inserted into the dict exactly when it is in the key order. */
  lemma KeyOrderTracksTable(rows: seq<HoursRow>, d: string)
    ensures d in HoursTable(rows) <==> d in KeyOrder(Labels(rows))
  {
    KeyOrderMembers(Labels(rows));
    HoursTableKeys(rows);
  }

  /** Every label appears in the key order, and nothing else does. */
  lemma {:induction false} KeyOrderMembers(ls: seq<string>)
    ensures forall d :: d in KeyOrder(ls) <==> d in ls
  {
    if ls != [] {
      KeyOrderMembers(ls[..|ls| - 1]);
      assert ls == ls[..|ls| - 1] + [ls[|ls| - 1]];
    }
  }

  lemma {:induction false} FirstInvalidAt(ks: seq<string>, j: int)
    requires 0 <= j < |ks| && !IsWeekday(ks[j])
    requires forall k :: 0 <= k < j ==> IsWeekday(ks[k])
    ensures FirstInvalid(ks) == Some(ks[j])
  {
    if j > 0 {
      FirstInvalidAt(ks[1..], j - 1);
    }
  }

  lemma {:induction false} FirstInvalidNone(ks: seq<string>)
    requires forall k :: 0 <= k < |ks| ==> IsWeekday(ks[k])
    ensures FirstInvalid(ks) == None
  {
    if ks != [] {
      FirstInvalidNone(ks[1..]);
    }
  }

  /** `FirstInvalid` names the earliest label that is not a weekday, and finds
      none exactly when every label is one. */
  lemma {:induction false} FirstInvalidSpec(ks: seq<string>)
    ensures FirstInvalid(ks) == None <==> forall k :: 0 <= k < |ks| ==> IsWeekday(ks[k])
    ensures FirstInvalid(ks).Some? ==>
      exists j :: 0 <= j < |ks| && ks[j] == FirstInvalid(ks).value && !IsWeekday(ks[j])
        && forall k :: 0 <= k < j ==> IsWeekday(ks[k])
  {
    if ks != [] {
      FirstInvalidSpec(ks[1..]);
      if IsWeekday(ks[0]) {
        if FirstInvalid(ks[1..]).Some? {
          var j :| 0 <= j < |ks[1..]| && ks[1..][j] == FirstInvalid(ks[1..]).value
            && !IsWeekday(ks[1..][j]) && forall k :: 0 <= k < j ==> IsWeekday(ks[1..][k]);
          assert forall k :: 0 <= k < j + 1 ==> IsWeekday(ks[k]) by {
            forall k | 0 < k < j + 1 ensures IsWeekday(ks[k]) { assert ks[k] == ks[1..][k - 1]; }
          }
        } else {
          forall k | 0 < k < |ks| ensures IsWeekday(ks[k]) { assert ks[k] == ks[1..][k - 1]; }
        }
      }
    }
  }

  lemma {:induction false} FirstInvalidAppend(ks: seq<string>, e: seq<string>)
    ensures FirstInvalid(ks + e) == if FirstInvalid(ks).Some? then FirstInvalid(ks) else FirstInvalid(e)
  {
    if ks == [] {
      assert ks + e == e;
    } else {
      assert (ks + e)[1..] == ks[1..] + e;
      FirstInvalidAppend(ks[1..], e);
    }
  }

  /** Walking the dict's keys in insertion order meets the same first invalid
      label as walking the rows in table order. */
  lemma {:induction false} KeyOrderFirstInvalid(ls: seq<string>)
    ensures FirstInvalid(KeyOrder(ls)) == FirstInvalid(ls)
  {
    if ls != [] {
      var init, d := ls[..|ls| - 1], ls[|ls| - 1];
      var front := KeyOrder(init);
      KeyOrderFirstInvalid(init);
      KeyOrderMembers(init);
      assert ls == init + [d];
      FirstInvalidAppend(init, [d]);
      FirstInvalidAppend(front, if d in front then [] else [d]);
      if d in front && FirstInvalid(init).None? {
        FirstInvalidSpec(init);
        var k :| 0 <= k < |init| && init[k] == d;
        assert IsWeekday(d);
      }
    }
  }

  /** The table fails validation exactly when some row's label is not a weekday
      name, and the error names the label of the earliest such row. */
  lemma TimingsFailure(rows: seq<HoursRow>)
    ensures BusinessTimings(Some(rows)).Err? <==>
      exists i :: 0 <= i < |rows| && !IsWeekday(rows[i].day)
    ensures BusinessTimings(Some(rows)).Err? ==>
      exists i :: 0 <= i < |rows| && !IsWeekday(rows[i].day)
        && BusinessTimings(Some(rows)).error == InvalidDay(rows[i].day)
        && forall k :: 0 <= k < i ==> IsWeekday(rows[k].day)
  {
    var ls := Labels(rows);
    KeyOrderFirstInvalid(ls);
    FirstInvalidSpec(ls);
    forall i | 0 <= i < |rows| ensures ls[i] == rows[i].day { LabelsAt(rows, i); }
  }

  /** On success every key is a weekday name and a label of the table. */
  lemma TimingsKeys(table: Option<seq<HoursRow>>)
    requires BusinessTimings(table).Ok?
    ensures forall d :: d in BusinessTimings(table).value ==> IsWeekday(d)
    ensures table.Some? ==> forall d :: d in BusinessTimings(table).value <==>
      exists i :: 0 <= i < |table.value| && table.value[i].day == d
    ensures table.None? ==> BusinessTimings(table).value == map[]
  {
    if table.Some? {
      var rows := table.value;
      var ls := Labels(rows);
      KeyOrderFirstInvalid(ls);
      FirstInvalidSpec(ls);
      assert BusinessTimings(table).value == HoursTable(rows);
      HoursTableKeys(rows);
      forall i | 0 <= i < |rows| ensures ls[i] == rows[i].day { LabelsAt(rows, i); }
    }
  }

  /** A label's value comes from the last row that carries it. */
  lemma {:induction false} HoursTableLastWins(rows: seq<HoursRow>, i: int)
    requires 0 <= i < |rows|
    requires forall j :: i < j < |rows| ==> rows[j].day != rows[i].day
    ensures rows[i].day in HoursTable(rows)
    ensures HoursTable(rows)[rows[i].day] == HoursValue(rows[i].timings)
  {
    if i < |rows| - 1 {
      HoursTableLastWins(rows[..|rows| - 1], i);
    }
  }

  /** Two opening intervals joined with a comma; single spaces are kept. */
  lemma HoursValueExample()
    ensures HoursValue(["9 AM–5 PM", "6 PM–9 PM"]) == "9 AM–5 PM,6 PM–9 PM"
  {
    var parts := ["9 AM–5 PM", "6 PM–9 PM"];
    assert parts[1..] == ["6 PM–9 PM"];
    assert Join(parts[1..], ",") == "6 PM–9 PM";
    assert Join(parts, ",") == "9 AM–5 PM" + "," + "6 PM–9 PM";
    assert "9 AM–5 PM" + "," + "6 PM–9 PM" == "9 AM–5 PM,6 PM–9 PM";
    assert HoursValue(parts) == CollapseWhitespace("9 AM–5 PM,6 PM–9 PM");
    CollapseExample();
  }

  lemma CollapseExample()
    ensures CollapseWhitespace("9 AM–5 PM,6 PM–9 PM") == "9 AM–5 PM,6 PM–9 PM"
  {
    var v := "9 AM–5 PM,6 PM–9 PM";
    assert forall i | 0 <= i < |v| :: IsSpace(v[i]) ==> v[i] == ' ';
    assert forall i | 0 <= i < |v| - 1 :: !(IsSpace(v[i]) && IsSpace(v[i + 1]));
    CollapseNormalised(v);
  }

  /** A table with one Monday row gives a one-entry dict. */
  lemma MondayExample()
    ensures BusinessTimings(Some([HoursRow("Monday", ["9 AM–5 PM", "6 PM–9 PM"])]))
         == Ok(map["Monday" := "9 AM–5 PM,6 PM–9 PM"])
  {
    var row := HoursRow("Monday", ["9 AM–5 PM", "6 PM–9 PM"]);
    HoursValueExample();
    assert [row][..0] == [];
    assert HoursTable([row]) == map["Monday" := HoursValue(row.timings)];
    assert Labels([row]) == ["Monday"];
    assert KeyOrder(["Monday"]) == ["Monday"];
  }

  /** An abbreviated day label fails the whole table. */
  lemma AbbreviatedDayExample()
    ensures BusinessTimings(Some([HoursRow("Monday", ["9 AM–5 PM"]), HoursRow("Mon", ["Closed"])]))
         == Err(InvalidDay("Mon"))
  {
    var rows := [HoursRow("Monday", ["9 AM–5 PM"]), HoursRow("Mon", ["Closed"])];
    assert rows[..1] == [HoursRow("Monday", ["9 AM–5 PM"])];
    assert Labels(rows) == ["Monday", "Mon"];
    assert "Mon" !in Weekdays;
    assert KeyOrder(["Monday"]) == ["Monday"];
    assert KeyOrder(Labels(rows)) == ["Monday", "Mon"];
  }
}
