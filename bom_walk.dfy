/** The specification of the BOM row walk: the rows, the column mapping
    `columns_to_extract`, the records it produces, and the walk itself as a
    recursive function over the cursor position, with the properties the
    imperative loop in module ProcessBom is proved against. */
module BomWalk {
  import Text

  datatype Option<T> = None | Some(value: T)

  /** A spreadsheet cell, read as given and never computed with. */
  type Cell = string

  /** The `''` written into the material fields of a standalone component. */
  const Blank: Cell := ""

  /** One BOM row, reduced to the cells the walk reads: the role tag
      (column `Description 7`, already stringified), `Description` and
      `Weight`. */
  datatype Row = Row(role: Cell, description: Cell, weight: Cell)

  /** The source columns named in `columns_to_extract`. */
  datatype Column = Description | Weight

  function CellAt(row: Row, column: Column): Cell
  {
    match column
    case Description => row.description
    case Weight => row.weight
  }

  /** One entry of `columns_to_extract`: an output label, the column it is
      read from and the row offset (0 for the current row, 1 for the next). */
  datatype Field = Field(key: string, column: Column, offset: nat)

  const ColumnsToExtract: seq<Field> := [
    Field("Component Name", Description, 0),
    Field("Component Weight", Weight, 0),
    Field("Material Name", Description, 1),
    Field("Material Fraction", Weight, 1)
  ]

  /** The output labels, in the order of `columns_to_extract`. */
  const OutputLabels: seq<string> :=
    ["Component Name", "Component Weight", "Material Name", "Material Fraction"]

  /** An output record is the `data` dictionary: its entries in insertion
      order. */
  datatype Entry = Entry(key: string, value: Cell)
  type Record = seq<Entry>

  /** The labels of a record, in order. The ensures spells the definition
      out index by index so that the prover can use it without unfolding the
      comprehension; it is not a property of the script. */
  function Labels(r: Record): (ls: seq<string>)
    ensures |ls| == |r| && forall k :: 0 <= k < |r| ==> ls[k] == r[k].key
  {
    seq(|r|, k requires 0 <= k < |r| => r[k].key)
  }

  /** The value stored under `name`, as `data[name]` reads it. */
  function Get(r: Record, name: string): Option<Cell>
  {
    if r == [] then None
    else if r[0].key == name then Some(r[0].value)
    else Get(r[1..], name)
  }

  /** `Get` finds the first entry stored under `name`. A Python dict keeps
      the last value stored under a key instead; the two agree on the
      records here because their labels are distinct (OutputLabelsDistinct). */
  lemma {:induction false} GetFirst(r: Record, k: nat, name: string)
    requires k < |r| && r[k].key == name
    requires forall j :: 0 <= j < k ==> r[j].key != name
    ensures Get(r, name) == Some(r[k].value)
  {
    if k > 0 {
      GetFirst(r[1..], k - 1, name);
    }
  }

  /** In a record whose labels are `OutputLabels`, each label reads back the
      value stored at its own position. */
  lemma GetOutputLabels(r: Record)
    requires Labels(r) == OutputLabels
    ensures Get(r, "Component Name") == Some(r[0].value)
    ensures Get(r, "Component Weight") == Some(r[1].value)
    ensures Get(r, "Material Name") == Some(r[2].value)
    ensures Get(r, "Material Fraction") == Some(r[3].value)
  {
    assert |r| == 4;
    assert r[0].key == "Component Name" && r[1].key == "Component Weight";
    assert r[2].key == "Material Name" && r[3].key == "Material Fraction";
    GetFirst(r, 0, "Component Name");
    GetFirst(r, 1, "Component Weight");
    GetFirst(r, 2, "Material Name");
    GetFirst(r, 3, "Material Fraction");
  }

  /** The entry a `single` row writes for one field: the row's own cell for
      an offset-0 field, `''` otherwise. */
  function SingleEntry(f: Field, row: Row): Entry
  {
    Entry(f.key, if f.offset == 0 then CellAt(row, f.column) else Blank)
  }

  /** The entry a `paired` row writes for one field: offset-0 fields read the
      component row, the others the material row after it. */
  function PairedEntry(f: Field, component: Row, material: Row): Entry
  {
    Entry(f.key, CellAt(if f.offset == 0 then component else material, f.column))
  }

  function SingleRecord(row: Row): Record
  {
    seq(|ColumnsToExtract|, k requires 0 <= k < |ColumnsToExtract| => SingleEntry(ColumnsToExtract[k], row))
  }

  function PairedRecord(component: Row, material: Row): Record
  {
    seq(|ColumnsToExtract|, k requires 0 <= k < |ColumnsToExtract| =>
      PairedEntry(ColumnsToExtract[k], component, material))
  }

  /** A record of a standalone component: the four labels in mapping order,
      each once, the component's description and weight, and `''` for both
      material fields. */
  lemma SingleRecordFields(row: Row)
    ensures Labels(SingleRecord(row)) == OutputLabels
    ensures Get(SingleRecord(row), "Component Name") == Some(row.description)
    ensures Get(SingleRecord(row), "Component Weight") == Some(row.weight)
    ensures Get(SingleRecord(row), "Material Name") == Some(Blank)
    ensures Get(SingleRecord(row), "Material Fraction") == Some(Blank)
  {
    GetOutputLabels(SingleRecord(row));
  }

  /** A record of a component and the material row after it: the four labels
      in mapping order, the component's description and weight, and the
      material row's description and weight (Material Fraction is the next
      row's `Weight` cell as given). */
  lemma PairedRecordFields(component: Row, material: Row)
    ensures Labels(PairedRecord(component, material)) == OutputLabels
    ensures Get(PairedRecord(component, material), "Component Name") == Some(component.description)
    ensures Get(PairedRecord(component, material), "Component Weight") == Some(component.weight)
    ensures Get(PairedRecord(component, material), "Material Name") == Some(material.description)
    ensures Get(PairedRecord(component, material), "Material Fraction") == Some(material.weight)
  {
    GetOutputLabels(PairedRecord(component, material));
  }

  /** The labels of `columns_to_extract`, in order, are `OutputLabels`, and
      they are distinct, so filling `data` once per field never overwrites
      an entry. */
  lemma OutputLabelsDistinct()
    ensures |ColumnsToExtract| == |OutputLabels|
    ensures forall k :: 0 <= k < |ColumnsToExtract| ==> ColumnsToExtract[k].key == OutputLabels[k]
    ensures forall i, j :: 0 <= i < j < |OutputLabels| ==> OutputLabels[i] != OutputLabels[j]
  {
  }

  /** The role tag after `str(...).strip().lower()`. */
  datatype Role = Single | Paired | Skip | Unrecognised

  function RoleOf(tag: Cell): Role
  {
    var p := Text.Normalize(tag);
    if p == "single" then Single
    else if p == "paired" then Paired
    else if p == "skip" then Skip
    else Unrecognised
  }

  /** Role matching ignores surrounding whitespace and letter case. */
  lemma RoleIgnoresPaddingAndCase(lead: string, s: string, trail: string, t: string)
    requires forall k :: 0 <= k < |lead| ==> Text.IsSpace(lead[k])
    requires forall k :: 0 <= k < |trail| ==> Text.IsSpace(trail[k])
    requires Text.SameUpToCase(s, t)
    ensures RoleOf(lead + s + trail) == RoleOf(t)
  {
    Text.PaddingIgnored(lead, s, trail);
    Text.CaseIgnored(s, t);
  }

  /** A tag written with padding and capitals is still `paired`. */
  lemma PaddedPairedExample()
    ensures RoleOf(" Paired ") == Paired
  {
    Text.StripUnique(" Paired ", 1, 7);
    assert Text.Strip(" Paired ") == "Paired";
    assert Text.Lower("Paired") == "paired";
  }

  /** A tag in capitals with a trailing line break is still `single`. */
  lemma CapitalSingleExample()
    ensures RoleOf("SINGLE\n") == Single
  {
    Text.StripUnique("SINGLE\n", 0, 6);
    assert Text.Strip("SINGLE\n") == "SINGLE";
    assert Text.Lower("SINGLE") == "single";
  }

  /** A prefix of a role is not that role. */
  lemma PrefixUnrecognisedExample()
    ensures RoleOf("pair") == Unrecognised
  {
    Text.StripUnique("pair", 0, 4);
    assert Text.Strip("pair") == "pair";
    assert Text.Lower("pair") == "pair";
  }

  /** The warnings the loop prints, one per offending row index. */
  datatype Warning =
    | NoNextRow(at: nat)                  // a `paired` row that is the last row
    | UnknownValue(value: Cell, at: nat)  // an unrecognised role, quoted as given

  /** The role of every row, as the dispatch reads it. */
  function Classify(rows: seq<Row>): (roles: seq<Role>)
    ensures |roles| == |rows|
  {
    if rows == [] then [] else [RoleOf(rows[0].role)] + Classify(rows[1..])
  }

  lemma {:induction false} ClassifyAt(rows: seq<Row>, k: nat)
    requires k < |rows|
    ensures Classify(rows)[k] == RoleOf(rows[k].role)
  {
    if k > 0 {
      ClassifyAt(rows[1..], k - 1);
    }
  }

  // The walk reads the rows' roles through a sequence `roles` of the same
  // length; the loop's walk is the one over `Classify(rows)`. Stated for any
  // such sequence, the properties below depend only on the shape of the
  // walk, not on how tags are normalised.

  /** How far the cursor moves from position `i`: past the material row after
      a `paired` row that has one, otherwise to the next row. */
  function Advance(roles: seq<Role>, i: nat): (k: nat)
    requires i < |roles|
    ensures (k == 1 || k == 2) && i + k <= |roles|
  {
    if roles[i] == Paired && i + 1 < |roles| then 2 else 1
  }

  /** Whether the row at `i` emits a record: a `single` row, or a `paired`
      row with a row after it. */
  predicate Emits(roles: seq<Role>, i: nat)
    requires i < |roles|
  {
    roles[i] == Single || (roles[i] == Paired && i + 1 < |roles|)
  }

  /** The record the row at `i` emits, if any. */
  function Emitted(roles: seq<Role>, rows: seq<Row>, i: nat): Option<Record>
    requires |roles| == |rows| && i < |rows|
  {
    if !Emits(roles, i) then None
    else if roles[i] == Single then Some(SingleRecord(rows[i]))
    else Some(PairedRecord(rows[i], rows[i + 1]))
  }

  /** The warning the row at `i` raises, if any: a `paired` last row, or a
      tag that is none of the three roles. */
  function Warned(roles: seq<Role>, rows: seq<Row>, i: nat): Option<Warning>
    requires |roles| == |rows| && i < |rows|
  {
    match roles[i]
    case Paired => if i + 1 < |rows| then None else Some(NoNextRow(i))
    case Unrecognised => Some(UnknownValue(rows[i].role, i))
    case _ => None
  }

  function AsSeq<T>(o: Option<T>): seq<T>
  {
    match o
    case None => []
    case Some(x) => [x]
  }

  /** The output rows and the warnings of (part of) a walk. */
  datatype Outcome = Outcome(records: seq<Record>, warnings: seq<Warning>)
  {
    function Then(rest: Outcome): Outcome
    {
      Outcome(records + rest.records, warnings + rest.warnings)
    }
  }

  /** Concatenating outcomes is associative. */
  lemma ThenAssociative(a: Outcome, b: Outcome, c: Outcome)
    ensures a.Then(b.Then(c)) == a.Then(b).Then(c)
  {
    assert a.records + (b.records + c.records) == (a.records + b.records) + c.records;
    assert a.warnings + (b.warnings + c.warnings) == (a.warnings + b.warnings) + c.warnings;
  }

  /** The walk from cursor position `i` to the end of the rows. */
  function WalkFrom(roles: seq<Role>, rows: seq<Row>, i: nat): Outcome
    requires |roles| == |rows|
    decreases |rows| - i
  {
    if i >= |rows| then Outcome([], [])
    else
      Outcome(AsSeq(Emitted(roles, rows, i)), AsSeq(Warned(roles, rows, i)))
        .Then(WalkFrom(roles, rows, i + Advance(roles, i)))
  }

  /** One step of the walk: what the row at `i` contributes, followed by the
      walk from where the cursor moves next. */
  lemma WalkUnfold(roles: seq<Role>, rows: seq<Row>, i: nat, step: Outcome, next: nat)
    requires |roles| == |rows| && i < |rows|
    requires step == Outcome(AsSeq(Emitted(roles, rows, i)), AsSeq(Warned(roles, rows, i)))
    requires next == i + Advance(roles, i)
    ensures WalkFrom(roles, rows, i) == step.Then(WalkFrom(roles, rows, next))
  {
  }

  /** The whole walk, from the first row. */
  function Walk(rows: seq<Row>): Outcome
  {
    WalkFrom(Classify(rows), rows, 0)
  }

  /** The positions the cursor takes from `i` on. */
  function Visits(roles: seq<Role>, i: nat): seq<nat>
    decreases |roles| - i
  {
    if i >= |roles| then [] else [i] + Visits(roles, i + Advance(roles, i))
  }

  /** The visited positions that emit a record, in visiting order. */
  function Triggers(roles: seq<Role>, i: nat): seq<nat>
    decreases |roles| - i
  {
    if i >= |roles| then []
    else (if Emits(roles, i) then [i] else []) + Triggers(roles, i + Advance(roles, i))
  }

  /** What each kind of row at the cursor does: a `single` row emits its own
      record and moves on by one; a `paired` row with a successor emits the
      pair's record and moves on by two; a `paired` last row only warns; a
      `skip` row does nothing; any other tag warns with the tag as given. */
  lemma WalkStep(roles: seq<Role>, rows: seq<Row>, i: nat)
    requires |roles| == |rows| && i < |rows|
    ensures roles[i] == Single ==>
      WalkFrom(roles, rows, i) == Outcome([SingleRecord(rows[i])], []).Then(WalkFrom(roles, rows, i + 1))
    ensures roles[i] == Paired && i + 1 < |rows| ==>
      WalkFrom(roles, rows, i)
      == Outcome([PairedRecord(rows[i], rows[i + 1])], []).Then(WalkFrom(roles, rows, i + 2))
    ensures roles[i] == Paired && i + 1 == |rows| ==>
      WalkFrom(roles, rows, i) == Outcome([], [NoNextRow(i)])
    ensures roles[i] == Skip ==> WalkFrom(roles, rows, i) == WalkFrom(roles, rows, i + 1)
    ensures roles[i] == Unrecognised ==>
      WalkFrom(roles, rows, i) == Outcome([], [UnknownValue(rows[i].role, i)]).Then(WalkFrom(roles, rows, i + 1))
  {
  }

  /** The cursor starts at `i`, only takes positions inside the table, and
      its last move lands exactly on the row count. */
  lemma {:induction false} VisitsInside(roles: seq<Role>, i: nat)
    requires i <= |roles|
    ensures i < |roles| ==> |Visits(roles, i)| > 0 && Visits(roles, i)[0] == i
    ensures forall p :: p in Visits(roles, i) ==> i <= p < |roles|
    ensures |Visits(roles, i)| > 0 ==>
      var last := Visits(roles, i)[|Visits(roles, i)| - 1];
      last < |roles| && last + Advance(roles, last) == |roles|
    ensures |Visits(roles, i)| <= |roles| - i
    decreases |roles| - i
  {
    if i < |roles| {
      var j := i + Advance(roles, i);
      VisitsInside(roles, j);
      assert Visits(roles, i) == [i] + Visits(roles, j);
    }
  }

  /** Each move of the cursor is the advance of the row it leaves (1 or 2),
      so the visited positions strictly increase. */
  lemma {:induction false} VisitsSteps(roles: seq<Role>, i: nat)
    requires i <= |roles|
    ensures forall k :: 0 <= k < |Visits(roles, i)| - 1 ==>
      Visits(roles, i)[k] < |roles| &&
      Visits(roles, i)[k + 1] == Visits(roles, i)[k] + Advance(roles, Visits(roles, i)[k])
    ensures forall k, l :: 0 <= k < l < |Visits(roles, i)| ==> Visits(roles, i)[k] < Visits(roles, i)[l]
    decreases |roles| - i
  {
    if i < |roles| {
      var j := i + Advance(roles, i);
      VisitsSteps(roles, j);
      VisitsInside(roles, j);
      var v, w := Visits(roles, i), Visits(roles, j);
      assert v == [i] + w;
      assert forall k :: 0 < k < |v| ==> v[k] == w[k - 1];
      assert forall k :: 0 <= k < |w| ==> w[k] in w;
    }
  }

  /** Every visited position emits at most one record or one warning, never
      both, so the walk writes no more records than there are rows. */
  lemma {:induction false} WalkBound(roles: seq<Role>, rows: seq<Row>, i: nat)
    requires |roles| == |rows| && i <= |rows|
    ensures |WalkFrom(roles, rows, i).records| + |WalkFrom(roles, rows, i).warnings| <= |Visits(roles, i)|
    ensures |WalkFrom(roles, rows, i).records| + |WalkFrom(roles, rows, i).warnings| <= |rows| - i
    decreases |rows| - i
  {
    VisitsInside(roles, i);
    if i < |rows| {
      WalkBound(roles, rows, i + Advance(roles, i));
    }
  }

  /** The emitting positions are exactly the visited positions whose row
      emits a record. */
  lemma {:induction false} TriggersVisited(roles: seq<Role>, i: nat)
    requires i <= |roles|
    ensures forall p :: p in Triggers(roles, i) <==> p in Visits(roles, i) && p < |roles| && Emits(roles, p)
    decreases |roles| - i
  {
    if i < |roles| {
      var j := i + Advance(roles, i);
      TriggersVisited(roles, j);
      assert Visits(roles, i) == [i] + Visits(roles, j);
    }
  }

  /** The emitting positions from `i` on lie at or after `i`. */
  lemma {:induction false} TriggersAbove(roles: seq<Role>, i: nat)
    requires i <= |roles|
    ensures forall k :: 0 <= k < |Triggers(roles, i)| ==> i <= Triggers(roles, i)[k]
    decreases |roles| - i
  {
    if i < |roles| {
      var j := i + Advance(roles, i);
      TriggersAbove(roles, j);
      if Emits(roles, i) {
        assert Triggers(roles, i) == [i] + Triggers(roles, j);
      }
    }
  }

  /** ... and they come in increasing row order. */
  lemma {:induction false} TriggersIncreasing(roles: seq<Role>, i: nat)
    requires i <= |roles|
    ensures forall k, l :: 0 <= k < l < |Triggers(roles, i)| ==> Triggers(roles, i)[k] < Triggers(roles, i)[l]
    decreases |roles| - i
  {
    if i < |roles| {
      var j := i + Advance(roles, i);
      TriggersIncreasing(roles, j);
      TriggersAbove(roles, j);
      if Emits(roles, i) {
        assert Triggers(roles, i) == [i] + Triggers(roles, j);
      }
    }
  }

  /** The records are those of the emitting visited rows, one each and in
      the same order: the k-th record is the one the k-th such row emits. */
  lemma {:induction false} RecordsFromTriggers(roles: seq<Role>, rows: seq<Row>, i: nat)
    requires |roles| == |rows| && i <= |rows|
    ensures |WalkFrom(roles, rows, i).records| == |Triggers(roles, i)|
    ensures forall k :: 0 <= k < |Triggers(roles, i)| ==>
      Triggers(roles, i)[k] < |rows| &&
      Emitted(roles, rows, Triggers(roles, i)[k]) == Some(WalkFrom(roles, rows, i).records[k])
    decreases |rows| - i
  {
    if i < |rows| {
      var j := i + Advance(roles, i);
      RecordsFromTriggers(roles, rows, j);
      var t, t' := Triggers(roles, i), Triggers(roles, j);
      var r, r' := WalkFrom(roles, rows, i).records, WalkFrom(roles, rows, j).records;
      if Emits(roles, i) {
        assert t == [i] + t' && r == [Emitted(roles, rows, i).value] + r';
      } else {
        assert t == t' && r == r';
      }
    }
  }

  /** Every record of the walk has exactly the four labels of
      `columns_to_extract`, in declaration order. */
  lemma {:induction false} RecordsLabelled(roles: seq<Role>, rows: seq<Row>, i: nat)
    requires |roles| == |rows| && i <= |rows|
    ensures forall r :: r in WalkFrom(roles, rows, i).records ==> Labels(r) == OutputLabels
  {
    RecordsFromTriggers(roles, rows, i);
    var t, rs := Triggers(roles, i), WalkFrom(roles, rows, i).records;
    forall r | r in rs ensures Labels(r) == OutputLabels {
      var k :| 0 <= k < |rs| && rs[k] == r;
      var p := t[k];
      if roles[p] == Single {
        SingleRecordFields(rows[p]);
      } else {
        PairedRecordFields(rows[p], rows[p + 1]);
      }
    }
  }

  /** Every warning comes from a visited row that raises it, and names that
      row. */
  lemma {:induction false} WarningsFromVisits(roles: seq<Role>, rows: seq<Row>, i: nat)
    requires |roles| == |rows| && i <= |rows|
    ensures forall w :: w in WalkFrom(roles, rows, i).warnings ==>
      w.at in Visits(roles, i) && w.at < |rows| && Warned(roles, rows, w.at) == Some(w)
    decreases |rows| - i
  {
    if i < |rows| {
      var j := i + Advance(roles, i);
      WarningsFromVisits(roles, rows, j);
      VisitsInside(roles, j);
      assert Visits(roles, i) == [i] + Visits(roles, j);
      assert WalkFrom(roles, rows, i).warnings
          == AsSeq(Warned(roles, rows, i)) + WalkFrom(roles, rows, j).warnings;
    }
  }

  /** The warnings come in increasing row order. */
  lemma {:induction false} WarningsOrdered(roles: seq<Role>, rows: seq<Row>, i: nat)
    requires |roles| == |rows| && i <= |rows|
    ensures forall k, l :: 0 <= k < l < |WalkFrom(roles, rows, i).warnings| ==>
      WalkFrom(roles, rows, i).warnings[k].at < WalkFrom(roles, rows, i).warnings[l].at
    decreases |rows| - i
  {
    if i < |rows| {
      var j := i + Advance(roles, i);
      WarningsOrdered(roles, rows, j);
      WarningsFromVisits(roles, rows, j);
      VisitsInside(roles, j);
      var ws, ws' := WalkFrom(roles, rows, i).warnings, WalkFrom(roles, rows, j).warnings;
      if Warned(roles, rows, i).Some? {
        assert ws == [Warned(roles, rows, i).value] + ws';
        assert Warned(roles, rows, i).value.at == i;
        assert forall k :: 0 <= k < |ws'| ==> i < ws'[k].at by {
          forall k | 0 <= k < |ws'| ensures i < ws'[k].at {
            assert ws'[k] in ws';
          }
        }
      } else {
        assert ws == ws';
      }
    }
  }

  /** Every visited row that raises a warning has it reported. */
  lemma {:induction false} VisitedWarningReported(roles: seq<Role>, rows: seq<Row>, i: nat, p: nat)
    requires |roles| == |rows|
    requires p in Visits(roles, i) && p < |rows| && Warned(roles, rows, p).Some?
    ensures Warned(roles, rows, p).value in WalkFrom(roles, rows, i).warnings
    decreases |rows| - i
  {
    assert i < |rows|;
    var j := i + Advance(roles, i);
    assert WalkFrom(roles, rows, i).warnings
        == AsSeq(Warned(roles, rows, i)) + WalkFrom(roles, rows, j).warnings;
    if p != i {
      assert Visits(roles, i) == [i] + Visits(roles, j);
      VisitedWarningReported(roles, rows, j, p);
    }
  }

  /** The row after a `paired` row that has one is consumed as material:
      the cursor never stops on it. */
  lemma MaterialRowNotVisited(roles: seq<Role>, i: nat, p: nat)
    requires p in Visits(roles, i) && p + 1 < |roles| && roles[p] == Paired
    ensures p + 1 !in Visits(roles, i)
  {
    assert i < |roles|;
    VisitsInside(roles, i);
    VisitsSteps(roles, i);
    var v := Visits(roles, i);
    var k :| 0 <= k < |v| && v[k] == p;
    // The positions increase, and the one after p (if any) is p + 2.
    forall l | 0 <= l < |v| ensures v[l] != p + 1 {
      if k < l {
        assert v[k + 1] == p + 2 && v[k + 1] <= v[l];
      }
    }
  }

  /** The walk from `i` reads only the roles and rows from `i` on. */
  lemma {:induction false} WalkReadsSuffix(roles: seq<Role>, rows: seq<Row>, roles': seq<Role>, rows': seq<Row>, i: nat)
    requires |roles| == |rows| == |roles'| == |rows'|
    requires forall j :: i <= j < |rows| ==> roles[j] == roles'[j] && rows[j] == rows'[j]
    ensures WalkFrom(roles, rows, i) == WalkFrom(roles', rows', i)
    decreases |rows| - i
  {
    if i < |rows| {
      WalkReadsSuffix(roles, rows, roles', rows', i + Advance(roles, i));
    }
  }

  /** ... and so the role of the material row after a visited `paired` row
      is never looked at: changing its tag changes nothing in the output. */
  lemma {:induction false} MaterialRoleIgnored(roles: seq<Role>, rows: seq<Row>, i: nat, p: nat, role: Role, tag: Cell)
    requires |roles| == |rows|
    requires p in Visits(roles, i) && p + 1 < |rows| && roles[p] == Paired
    ensures WalkFrom(roles[p + 1 := role], rows[p + 1 := rows[p + 1].(role := tag)], i) == WalkFrom(roles, rows, i)
    decreases |rows| - i
  {
    var roles', rows' := roles[p + 1 := role], rows[p + 1 := rows[p + 1].(role := tag)];
    assert i < |rows|;
    VisitsInside(roles, i);
    assert rows'[i] == rows[i] && roles'[i] == roles[i];
    var j := i + Advance(roles, i);
    var step := Outcome(AsSeq(Emitted(roles, rows, i)), AsSeq(Warned(roles, rows, i)));
    if i == p {
      // The pair's record takes only the description and weight of row p + 1.
      assert PairedRecord(rows'[p], rows'[p + 1]) == PairedRecord(rows[p], rows[p + 1]);
      WalkReadsSuffix(roles, rows, roles', rows', j);
    } else {
      assert Visits(roles, i) == [i] + Visits(roles, j);
      if i + 1 < |rows| {
        assert rows'[i + 1] == rows[i + 1];
      }
      MaterialRoleIgnored(roles, rows, j, p, role, tag);
    }
    assert Advance(roles', i) == Advance(roles, i);
    assert Emitted(roles', rows', i) == Emitted(roles, rows, i);
    assert Warned(roles', rows', i) == Warned(roles, rows, i);
    WalkUnfold(roles, rows, i, step, j);
    WalkUnfold(roles', rows', i, step, j);
  }

  /** For the loop's own walk: the `Description 7` tag of the material row
      after a visited `paired` row can be anything at all. */
  lemma MaterialTagIgnored(rows: seq<Row>, p: nat, tag: Cell)
    requires p in Visits(Classify(rows), 0) && p + 1 < |rows| && RoleOf(rows[p].role) == Paired
    ensures Walk(rows[p + 1 := rows[p + 1].(role := tag)]) == Walk(rows)
  {
    var rows' := rows[p + 1 := rows[p + 1].(role := tag)];
    forall k | 0 <= k < |rows| ensures Classify(rows')[k] == Classify(rows)[p + 1 := RoleOf(tag)][k] {
      ClassifyAt(rows, k);
      ClassifyAt(rows', k);
    }
    assert Classify(rows') == Classify(rows)[p + 1 := RoleOf(tag)];
    ClassifyAt(rows, p);
    MaterialRoleIgnored(Classify(rows), rows, 0, p, RoleOf(tag), tag);
  }
}
