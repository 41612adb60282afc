/** The output-building loop of the BOM script: a cursor walks the rows,
    dispatching on each row's normalised role tag, and appends one `data`
    record per standalone component or component/material pair. Each method
    is proved against the walk specification in module BomWalk. */
module ProcessBom {
  import opened BomWalk

  /** Fills `data` for a `single` row, one field of `columns_to_extract` at
      a time: the row's own cell for an offset-0 field, `''` otherwise. */
  method FillSingle(row: Row) returns (data: Record)
    ensures data == SingleRecord(row)
    ensures Labels(data) == OutputLabels
  {
    data := [];
    for k := 0 to |ColumnsToExtract|
      invariant data == SingleRecord(row)[..k]
    {
      var f := ColumnsToExtract[k];
      var value;
      if f.offset == 0 {
        value := CellAt(row, f.column);
      } else {
        value := Blank;  // no material info for a standalone component
      }
      data := data + [Entry(f.key, value)];
    }
    SingleRecordFields(row);
  }

  /** Fills `data` for a `paired` row: offset-0 fields from the component
      row, the others from the material row that follows it. */
  method FillPaired(component: Row, material: Row) returns (data: Record)
    ensures data == PairedRecord(component, material)
    ensures Labels(data) == OutputLabels
  {
    data := [];
    for k := 0 to |ColumnsToExtract|
      invariant data == PairedRecord(component, material)[..k]
    {
      var f := ColumnsToExtract[k];
      var source := if f.offset == 0 then component else material;
      data := data + [Entry(f.key, CellAt(source, f.column))];
    }
    PairedRecordFields(component, material);
  }

  /** One pass of the loop body with the cursor at `i`: dispatches on the
      row's normalised role tag and returns the record it appends, the
      warning it prints, and where the cursor goes next. They are what the
      walk specification says the row at `i` does. */
  method Visit(rows: seq<Row>, i: nat) returns (emitted: Option<Record>, warned: Option<Warning>, next: nat)
    requires i < |rows|
    ensures emitted == Emitted(Classify(rows), rows, i)
    ensures warned == Warned(Classify(rows), rows, i)
    ensures next == i + Advance(Classify(rows), i)
  {
    var row := rows[i];
    var role := RoleOf(row.role);  // `str(...).strip().lower()`, then the comparisons
    ClassifyAt(rows, i);
    emitted, warned := None, None;
    if role == Single {
      var data := FillSingle(row);
      emitted := Some(data);
      next := i + 1;
    } else if role == Paired {
      if i + 1 < |rows| {
        var data := FillPaired(row, rows[i + 1]);
        emitted := Some(data);
        next := i + 2;  // the material row is consumed here
      } else {
        warned := Some(NoNextRow(i));
        next := i + 1;
      }
    } else if role == Skip {
      next := i + 1;
    } else {
      warned := Some(UnknownValue(row.role, i));
      next := i + 1;
    }
  }

  /** The row walk: returns the output rows and the warnings the loop
      prints, in order. They are those of the walk specification, there
      are no more of them together than there are rows, and every output row
      has the four labels of `columns_to_extract`. */
  method Build(rows: seq<Row>) returns (outputRows: seq<Record>, warnings: seq<Warning>)
    ensures Outcome(outputRows, warnings) == Walk(rows)
    ensures |outputRows| + |warnings| <= |rows|
    ensures forall r :: r in outputRows ==> Labels(r) == OutputLabels
  {
    ghost var roles := Classify(rows);
    ghost var whole := WalkFrom(roles, rows, 0);
    outputRows, warnings := [], [];
    var i := 0;
    while i < |rows|
      invariant 0 <= i <= |rows|
      invariant whole == Outcome(outputRows, warnings).Then(WalkFrom(roles, rows, i))
      decreases |rows| - i
    {
      ghost var done, from := Outcome(outputRows, warnings), i;
      var emitted, warned, next := Visit(rows, i);
      ghost var step := Outcome(AsSeq(emitted), AsSeq(warned));
      outputRows := outputRows + AsSeq(emitted);
      warnings := warnings + AsSeq(warned);
      i := next;
      WalkUnfold(roles, rows, from, step, i);
      ThenAssociative(done, step, WalkFrom(roles, rows, i));
    }
    WalkBound(roles, rows, 0);
    RecordsLabelled(roles, rows, 0);
    assert WalkFrom(roles, rows, i) == Outcome([], []);
    assert whole == Walk(rows);
  }
}
