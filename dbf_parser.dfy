/**
 * The fast record reader of the dBASE table decoder.
 *
 * A table stores, after its header, one record per row: a one-byte marker
 * followed by the bytes of every field, back to back, in header order.
 * The planner compiles the field list and the set of wanted names into a
 * skip sequence (reads for wanted fields, one merged seek for every run of
 * unwanted ones); the walker executes that plan on every record whose marker
 * is the requested record type, stops at the end-of-data marker or at the end
 * of the file, and seeks over every other record as a whole.
 */
module DbfParser {

  type byte = bv8

  /** Marker of a live record (the walker's default record type). */
  const ActiveMarker: byte := 0x20
  /** Marker of a soft-deleted record (the record type of dbfread's deleted view). */
  const DeletedMarker: byte := 0x2A
  /** End-of-data marker. */
  const EndMarker: byte := 0x1A

  /** A field descriptor of the table header. */
  datatype Field = Field(name: string, length: nat)

  /** One instruction of the skip sequence. */
  datatype Entry = Keep(name: string, len: nat) | Skip(len: nat)

  /** One decoded record: the raw bytes of every kept field, by name. */
  type Values = map<string, seq<byte>>

  function Min(a: int, b: int): int { if a <= b then a else b }

  /** Sum of the field lengths: the byte width of a record after its marker. */
  function Width(fields: seq<Field>): nat
  {
    if fields == [] then 0 else fields[0].length + Width(fields[1..])
  }

  /** Sum of the byte lengths of the plan entries. */
  function Span(plan: seq<Entry>): nat
  {
    if plan == [] then 0 else plan[0].len + Span(plan[1..])
  }

  /** Byte offset of field i from the start of the record body. */
  function Offset(fields: seq<Field>, i: nat): nat
    requires i <= |fields|
  {
    Width(fields[..i])
  }

  /**
   * The plan as "mark every field, then merge runs of skips", built from the
   * front: a reference definition independent of the left fold that
   * CreateSkipSequence performs.
   */
  function Plan(fields: seq<Field>, selected: set<string>): seq<Entry>
  {
    if fields == [] then [] else PlanCons(fields[0], Plan(fields[1..], selected), selected)
  }

  predicate NoAdjacentSkips(plan: seq<Entry>)
  {
    forall i :: 0 <= i < |plan| - 1 ==> !(plan[i].Skip? && plan[i + 1].Skip?)
  }

  /** The Keep entries of a plan, in order. */
  function Keeps(plan: seq<Entry>): seq<Entry>
  {
    if plan == [] then []
    else (if plan[0].Keep? then [plan[0]] else []) + Keeps(plan[1..])
  }

  /** One Keep entry per wanted field, in field order, carrying its length. */
  function WantedEntries(fields: seq<Field>, selected: set<string>): seq<Entry>
  {
    if fields == [] then []
    else (if fields[0].name in selected then [Keep(fields[0].name, fields[0].length)] else [])
         + WantedEntries(fields[1..], selected)
  }

  /** Number of maximal runs of unwanted fields (counted at the field that ends each run). */
  function Runs(fields: seq<Field>, selected: set<string>): nat
  {
    if fields == [] then 0
    else
      var endsRun := fields[0].name !in selected && (|fields| == 1 || fields[1].name in selected);
      (if endsRun then 1 else 0) + Runs(fields[1..], selected)
  }

  /** The names of the wanted fields. */
  function WantedNames(fields: seq<Field>, selected: set<string>): set<string>
  {
    set f | f in fields && f.name in selected :: f.name
  }

  /** No wanted field has the empty name, which the source would take for a skip entry. */
  predicate NamesUsable(fields: seq<Field>, selected: set<string>)
  {
    forall f :: f in fields && f.name in selected ==> f.name != ""
  }

  // ---------------------------------------------------------------------------
  // Properties of the plan

  lemma {:induction false} PlanSpan(fields: seq<Field>, selected: set<string>)
    ensures Span(Plan(fields, selected)) == Width(fields)
  {
    if fields != [] {
      PlanSpan(fields[1..], selected);
      var rest := Plan(fields[1..], selected);
      if fields[0].name !in selected && rest != [] && rest[0].Skip? {
        assert Span(rest) == rest[0].len + Span(rest[1..]);
      }
    }
  }

  lemma {:induction false} PlanNoAdjacentSkips(fields: seq<Field>, selected: set<string>)
    ensures NoAdjacentSkips(Plan(fields, selected))
  {
    if fields != [] {
      PlanNoAdjacentSkips(fields[1..], selected);
      var rest := Plan(fields[1..], selected);
      var p := Plan(fields, selected);
      if fields[0].name in selected {
        assert p == [Keep(fields[0].name, fields[0].length)] + rest;
        forall i | 0 <= i < |p| - 1 ensures !(p[i].Skip? && p[i + 1].Skip?) {
          if i > 0 { assert p[i] == rest[i - 1] && p[i + 1] == rest[i]; }
        }
      } else if rest != [] && rest[0].Skip? {
        assert p == [Skip(fields[0].length + rest[0].len)] + rest[1..];
        forall i | 0 <= i < |p| - 1 ensures !(p[i].Skip? && p[i + 1].Skip?) {
          assert p[i + 1] == rest[i + 1];
          if i > 0 { assert p[i] == rest[i]; }
        }
      } else {
        assert p == [Skip(fields[0].length)] + rest;
        forall i | 0 <= i < |p| - 1 ensures !(p[i].Skip? && p[i + 1].Skip?) {
          if i > 0 { assert p[i] == rest[i - 1] && p[i + 1] == rest[i]; }
        }
      }
    }
  }

  lemma {:induction false} KeepsAppend(a: seq<Entry>, b: seq<Entry>)
    ensures Keeps(a + b) == Keeps(a) + Keeps(b)
  {
    if a == [] {
      assert a + b == b;
    } else {
      var c := a + b;
      assert c[0] == a[0] && c[1..] == a[1..] + b;
      KeepsAppend(a[1..], b);
      assert Keeps(c) == (if a[0].Keep? then [a[0]] else []) + Keeps(a[1..] + b);
    }
  }

  lemma {:induction false} PlanKeeps(fields: seq<Field>, selected: set<string>)
    ensures Keeps(Plan(fields, selected)) == WantedEntries(fields, selected)
  {
    if fields != [] {
      PlanKeeps(fields[1..], selected);
      var rest := Plan(fields[1..], selected);
      var f := fields[0];
      if f.name in selected {
        KeepsAppend([Keep(f.name, f.length)], rest);
      } else if rest != [] && rest[0].Skip? {
        assert rest == [rest[0]] + rest[1..];
        KeepsAppend([rest[0]], rest[1..]);
        KeepsAppend([Skip(f.length + rest[0].len)], rest[1..]);
      } else {
        KeepsAppend([Skip(f.length)], rest);
      }
    }
  }

  /** The first entry of a non-empty plan is a Skip exactly when the first field is unwanted. */
  lemma {:induction false} PlanHead(fields: seq<Field>, selected: set<string>)
    ensures (Plan(fields, selected) == []) == (fields == [])
    ensures fields != [] ==> (Plan(fields, selected)[0].Skip? <==> fields[0].name !in selected)
  {
    if fields != [] {
      PlanHead(fields[1..], selected);
    }
  }

  lemma {:induction false} PlanSize(fields: seq<Field>, selected: set<string>)
    ensures |Plan(fields, selected)| == |WantedEntries(fields, selected)| + Runs(fields, selected)
  {
    if fields != [] {
      PlanSize(fields[1..], selected);
      PlanHead(fields[1..], selected);
    }
  }

  /** Appending one field to the field list changes the plan as one step of the source's fold. */
  lemma {:induction false} PlanSnoc(fields: seq<Field>, f: Field, selected: set<string>)
    ensures Plan(fields + [f], selected) == FoldStep(Plan(fields, selected), f, selected)
  {
    if fields == [] {
      assert fields + [f] == [f];
    } else {
      assert (fields + [f])[1..] == fields[1..] + [f];
      assert (fields + [f])[0] == fields[0];
      PlanSnoc(fields[1..], f, selected);
      FoldStepCommutes(fields[0], Plan(fields[1..], selected), f, selected);
    }
  }

  /** Prepending a field in the way Plan does commutes with one fold step at the end. */
  lemma FoldStepCommutes(g: Field, rest: seq<Entry>, f: Field, selected: set<string>)
    ensures FoldStep(PlanCons(g, rest, selected), f, selected)
         == PlanCons(g, FoldStep(rest, f, selected), selected)
  {
    if g.name !in selected && rest != [] && rest[0].Skip? {
      CommuteFrontMerge(g, rest, f, selected);
    } else {
      CommuteFrontPlain(g, rest, f, selected);
    }
  }

  /** The case where g's skip merges into the first entry of rest. */
  lemma CommuteFrontMerge(g: Field, rest: seq<Entry>, f: Field, selected: set<string>)
    requires g.name !in selected && rest != [] && rest[0].Skip?
    ensures FoldStep(PlanCons(g, rest, selected), f, selected)
         == PlanCons(g, FoldStep(rest, f, selected), selected)
  {
    var n := |rest|;
    var front := Skip(g.length + rest[0].len);
    assert PlanCons(g, rest, selected) == [front] + rest[1..];
    if f.name in selected || !rest[n - 1].Skip? {
      if n > 1 { assert ([front] + rest[1..])[n - 1] == rest[n - 1]; }
      var e := if f.name in selected then Keep(f.name, f.length) else Skip(f.length);
      assert FoldStep(rest, f, selected) == rest + [e];
      assert (rest + [e])[1..] == rest[1..] + [e];
    } else if n > 1 {
      var last := Skip(rest[n - 1].len + f.length);
      assert ([front] + rest[1..])[n - 1] == rest[n - 1];
      assert ([front] + rest[1..])[..n - 1] == [front] + rest[1..][..n - 2];
      assert (rest[..n - 1] + [last])[1..] == rest[1..][..n - 2] + [last];
    }
  }

  /** The case where g's entry is simply put in front of rest. */
  lemma CommuteFrontPlain(g: Field, rest: seq<Entry>, f: Field, selected: set<string>)
    requires !(g.name !in selected && rest != [] && rest[0].Skip?)
    ensures FoldStep(PlanCons(g, rest, selected), f, selected)
         == PlanCons(g, FoldStep(rest, f, selected), selected)
  {
    var n := |rest|;
    var e := PlanCons(g, [], selected)[0];
    assert PlanCons(g, rest, selected) == [e] + rest;
    if rest != [] && f.name !in selected && rest[n - 1].Skip? {
      assert ([e] + rest)[..n] == [e] + rest[..n - 1];
      var r := FoldStep(rest, f, selected);
      assert r != [] && (r[0].Skip? <==> rest[0].Skip?) by {
        if n > 1 { assert r[0] == rest[0]; }
      }
    }
  }

  /** The front step of Plan: the entries for field g followed by the plan of the fields after it. */
  function PlanCons(g: Field, rest: seq<Entry>, selected: set<string>): seq<Entry>
  {
    if g.name in selected then [Keep(g.name, g.length)] + rest
    else if rest != [] && rest[0].Skip? then [Skip(g.length + rest[0].len)] + rest[1..]
    else [Skip(g.length)] + rest
  }

  /** One iteration of the source's planning loop. */
  function FoldStep(plan: seq<Entry>, f: Field, selected: set<string>): seq<Entry>
  {
    if f.name in selected then plan + [Keep(f.name, f.length)]
    else if |plan| > 0 && plan[|plan| - 1].Skip? then plan[..|plan| - 1] + [Skip(plan[|plan| - 1].len + f.length)]
    else plan + [Skip(f.length)]
  }

  /**
   * create_skip_sequence: a left fold over the fields that appends a Keep for a
   * wanted field and extends the last entry in place when it is a Skip.
   */
  method CreateSkipSequence(selected: set<string>, fields: seq<Field>) returns (plan: seq<Entry>)
    requires NamesUsable(fields, selected)
    ensures plan == Plan(fields, selected)
    ensures Span(plan) == Width(fields)
    ensures NoAdjacentSkips(plan)
    ensures Keeps(plan) == WantedEntries(fields, selected)
    ensures |plan| == |WantedEntries(fields, selected)| + Runs(fields, selected)
  {
    plan := [];
    for i := 0 to |fields|
      invariant plan == Plan(fields[..i], selected)
    {
      ghost var prev := plan;
      var f := fields[i];
      if f.name in selected {
        plan := plan + [Keep(f.name, f.length)];
      } else if |plan| > 0 && plan[|plan| - 1].Skip? {
        plan := plan[..|plan| - 1] + [Skip(plan[|plan| - 1].len + f.length)];
      } else {
        plan := plan + [Skip(f.length)];
      }
      assert plan == FoldStep(prev, f, selected);
      PlanSnoc(fields[..i], f, selected);
      assert fields[..i + 1] == fields[..i] + [f];
    }
    assert fields[..|fields|] == fields;
    PlanFacts(fields, selected);
  }

  /** The properties of the reference plan, together. */
  lemma PlanFacts(fields: seq<Field>, selected: set<string>)
    ensures Span(Plan(fields, selected)) == Width(fields)
    ensures NoAdjacentSkips(Plan(fields, selected))
    ensures Keeps(Plan(fields, selected)) == WantedEntries(fields, selected)
    ensures |Plan(fields, selected)| == |WantedEntries(fields, selected)| + Runs(fields, selected)
  {
    PlanSpan(fields, selected);
    PlanNoAdjacentSkips(fields, selected);
    PlanKeeps(fields, selected);
    PlanSize(fields, selected);
  }

  // ---------------------------------------------------------------------------
  // Reading records

  /**
   * What a file read of n bytes at offset pos returns: fewer bytes, or none,
   * when the file ends first. A seek past the end is allowed; only reads are cut.
   */
  function ReadAt(data: seq<byte>, pos: nat, n: nat): (r: seq<byte>)
    ensures |r| <= n
    ensures pos + n <= |data| ==> r == data[pos..pos + n]
  {
    if pos >= |data| then [] else data[pos..Min(pos + n, |data|)]
  }

  /** Runs a plan from offset pos, adding every kept field's bytes to acc. */
  function RunPlan(data: seq<byte>, pos: nat, plan: seq<Entry>, acc: Values): Values
    decreases |plan|
  {
    if plan == [] then acc
    else match plan[0]
      case Skip(n) => RunPlan(data, pos + n, plan[1..], acc)
      case Keep(name, n) => RunPlan(data, pos + n, plan[1..], acc[name := ReadAt(data, pos, n)])
  }

  /**
   * Reference decoding of one record body at offset pos, field by field
   * without any plan: every wanted field is read at its own offset.
   */
  function ReadFields(data: seq<byte>, pos: nat, fields: seq<Field>, selected: set<string>, acc: Values): Values
    decreases |fields|
  {
    if fields == [] then acc
    else
      var f := fields[0];
      var acc' := if f.name in selected then acc[f.name := ReadAt(data, pos, f.length)] else acc;
      ReadFields(data, pos + f.length, fields[1..], selected, acc')
  }

  /**
   * The records yielded when the walk is at offset pos: one per record whose
   * marker is recordType, until the end-of-data marker or the end of the file;
   * a record with any other marker is passed over by seeking its width.
   */
  function Walk(data: seq<byte>, pos: nat, fields: seq<Field>, selected: set<string>, recordType: byte): seq<Values>
    decreases |data| - pos
  {
    if pos >= |data| then []
    else if data[pos] == recordType then
      [ReadFields(data, pos + 1, fields, selected, map[])] + Walk(data, pos + 1 + Width(fields), fields, selected, recordType)
    else if data[pos] == EndMarker then []
    else Walk(data, pos + 1 + Width(fields), fields, selected, recordType)
  }

  /** Executing the merged plan reads exactly what reading every wanted field at its own offset reads. */
  lemma {:induction false} PlanReadsFields(data: seq<byte>, pos: nat, fields: seq<Field>, selected: set<string>, acc: Values)
    ensures RunPlan(data, pos, Plan(fields, selected), acc) == ReadFields(data, pos, fields, selected, acc)
    decreases |fields|
  {
    if fields != [] {
      var f := fields[0];
      var rest := Plan(fields[1..], selected);
      if f.name in selected {
        PlanReadsFields(data, pos + f.length, fields[1..], selected, acc[f.name := ReadAt(data, pos, f.length)]);
      } else if rest != [] && rest[0].Skip? {
        PlanReadsFields(data, pos + f.length, fields[1..], selected, acc);
        assert RunPlan(data, pos + f.length, rest, acc) == RunPlan(data, pos + f.length + rest[0].len, rest[1..], acc);
      } else {
        PlanReadsFields(data, pos + f.length, fields[1..], selected, acc);
      }
    }
  }

  /** The keys of a decoded record are the accumulated ones plus exactly the wanted names. */
  lemma {:induction false} ReadFieldsKeys(data: seq<byte>, pos: nat, fields: seq<Field>, selected: set<string>, acc: Values)
    ensures ReadFields(data, pos, fields, selected, acc).Keys == acc.Keys + WantedNames(fields, selected)
    decreases |fields|
  {
    if fields != [] {
      var f := fields[0];
      var acc' := if f.name in selected then acc[f.name := ReadAt(data, pos, f.length)] else acc;
      ReadFieldsKeys(data, pos + f.length, fields[1..], selected, acc');
      WantedNamesCons(fields, selected);
      assert ReadFields(data, pos, fields, selected, acc) == ReadFields(data, pos + f.length, fields[1..], selected, acc');
    }
  }

  lemma WantedNamesCons(fields: seq<Field>, selected: set<string>)
    requires fields != []
    ensures WantedNames(fields, selected)
         == (if fields[0].name in selected then {fields[0].name} else {}) + WantedNames(fields[1..], selected)
  {
    assert fields == [fields[0]] + fields[1..];
  }

  /** Names of a field list are distinct. */
  predicate DistinctNames(fields: seq<Field>)
  {
    forall i, j :: 0 <= i < j < |fields| ==> fields[i].name != fields[j].name
  }

  /** Entries not named by any of the fields pass through a record decoding unchanged. */
  lemma {:induction false} ReadFieldsKeepsOthers(data: seq<byte>, pos: nat, fields: seq<Field>, selected: set<string>, acc: Values, name: string)
    requires forall f :: f in fields ==> f.name != name
    requires name in acc
    ensures name in ReadFields(data, pos, fields, selected, acc)
    ensures ReadFields(data, pos, fields, selected, acc)[name] == acc[name]
    decreases |fields|
  {
    if fields != [] {
      var f := fields[0];
      var acc' := if f.name in selected then acc[f.name := ReadAt(data, pos, f.length)] else acc;
      ReadFieldsKeepsOthers(data, pos + f.length, fields[1..], selected, acc', name);
    }
  }

  lemma {:induction false} WidthAppend(a: seq<Field>, b: seq<Field>)
    ensures Width(a + b) == Width(a) + Width(b)
  {
    if a == [] {
      assert a + b == b;
    } else {
      assert (a + b)[1..] == a[1..] + b;
      WidthAppend(a[1..], b);
    }
  }

  /**
   * With distinct field names, the value of a wanted field in the decoded
   * record is the bytes at that field's offset in the record body.
   */
  lemma {:induction false} ReadFieldsValue(data: seq<byte>, pos: nat, fields: seq<Field>, selected: set<string>, acc: Values, i: nat)
    requires DistinctNames(fields)
    requires i < |fields| && fields[i].name in selected
    ensures fields[i].name in ReadFields(data, pos, fields, selected, acc)
    ensures ReadFields(data, pos, fields, selected, acc)[fields[i].name]
         == ReadAt(data, pos + Offset(fields, i), fields[i].length)
    decreases |fields|
  {
    if i == 0 {
      DistinctHead(fields);
      FirstFieldValue(data, pos, fields, selected, acc);
    } else {
      var f := fields[0];
      var acc' := if f.name in selected then acc[f.name := ReadAt(data, pos, f.length)] else acc;
      DistinctTail(fields);
      ReadFieldsValue(data, pos + f.length, fields[1..], selected, acc', i - 1);
      LaterFieldValue(data, pos, fields, selected, acc, i);
    }
  }

  /** A later field's value is its value in the decoding of the fields after the first. */
  lemma LaterFieldValue(data: seq<byte>, pos: nat, fields: seq<Field>, selected: set<string>, acc: Values, i: nat)
    requires 0 < i < |fields|
    requires var f := fields[0];
      var acc' := if f.name in selected then acc[f.name := ReadAt(data, pos, f.length)] else acc;
      var r := ReadFields(data, pos + f.length, fields[1..], selected, acc');
      fields[1..][i - 1].name in r
      && r[fields[1..][i - 1].name] == ReadAt(data, pos + f.length + Offset(fields[1..], i - 1), fields[1..][i - 1].length)
    ensures fields[i].name in ReadFields(data, pos, fields, selected, acc)
    ensures ReadFields(data, pos, fields, selected, acc)[fields[i].name]
         == ReadAt(data, pos + Offset(fields, i), fields[i].length)
  {
    assert fields[i] == fields[1..][i - 1];
    OffsetTail(fields, i);
  }

  /** The first field, when wanted and named by no later field, keeps the bytes read at the record start. */
  lemma FirstFieldValue(data: seq<byte>, pos: nat, fields: seq<Field>, selected: set<string>, acc: Values)
    requires fields != [] && fields[0].name in selected
    requires forall g :: g in fields[1..] ==> g.name != fields[0].name
    ensures fields[0].name in ReadFields(data, pos, fields, selected, acc)
    ensures ReadFields(data, pos, fields, selected, acc)[fields[0].name] == ReadAt(data, pos + Offset(fields, 0), fields[0].length)
  {
    var f := fields[0];
    var acc' := acc[f.name := ReadAt(data, pos, f.length)];
    ReadFieldsKeepsOthers(data, pos + f.length, fields[1..], selected, acc', f.name);
    assert fields[..0] == [];
  }

  lemma DistinctHead(fields: seq<Field>)
    requires fields != [] && DistinctNames(fields)
    ensures forall g :: g in fields[1..] ==> g.name != fields[0].name
  {
    forall g | g in fields[1..] ensures g.name != fields[0].name {
      var j :| 0 <= j < |fields[1..]| && fields[1..][j] == g;
      assert fields[j + 1] == g;
    }
  }

  lemma DistinctTail(fields: seq<Field>)
    requires fields != [] && DistinctNames(fields)
    ensures DistinctNames(fields[1..])
  {
    forall i, j | 0 <= i < j < |fields[1..]| ensures fields[1..][i].name != fields[1..][j].name {
      assert fields[1..][i] == fields[i + 1] && fields[1..][j] == fields[j + 1];
    }
  }

  /** The offset of a later field is the first field's length plus its offset among the rest. */
  lemma OffsetTail(fields: seq<Field>, i: nat)
    requires 0 < i <= |fields|
    ensures Offset(fields, i) == fields[0].length + Offset(fields[1..], i - 1)
  {
    assert fields[..i] == [fields[0]] + fields[1..][..i - 1];
    WidthAppend([fields[0]], fields[1..][..i - 1]);
  }

  /** Every yielded record has exactly the wanted names as keys. */
  lemma {:induction false} WalkKeys(data: seq<byte>, pos: nat, fields: seq<Field>, selected: set<string>, recordType: byte)
    ensures forall r :: r in Walk(data, pos, fields, selected, recordType) ==> r.Keys == WantedNames(fields, selected)
    decreases |data| - pos
  {
    if pos < |data| && (data[pos] != EndMarker || data[pos] == recordType) {
      WalkKeys(data, pos + 1 + Width(fields), fields, selected, recordType);
      ReadFieldsKeys(data, pos + 1, fields, selected, map[]);
    }
  }

  // ---------------------------------------------------------------------------
  // What the walk depends on

  /** The bytes of d from offset p are those of e from offset q (and as many of them). */
  ghost predicate SameFrom(d: seq<byte>, p: nat, e: seq<byte>, q: nat)
  {
    |d| - p == |e| - q && (p <= |d| ==> d[p..] == e[q..])
  }

  lemma SameFromAdvance(d: seq<byte>, p: nat, e: seq<byte>, q: nat, n: nat)
    requires SameFrom(d, p, e, q)
    ensures SameFrom(d, p + n, e, q + n)
  {
    if p + n <= |d| {
      assert d[p + n..] == d[p..][n..];
      assert e[q + n..] == e[q..][n..];
    }
  }

  lemma ReadAtSame(d: seq<byte>, p: nat, e: seq<byte>, q: nat, n: nat)
    requires SameFrom(d, p, e, q)
    ensures ReadAt(d, p, n) == ReadAt(e, q, n)
  {
    if p < |d| {
      var m := Min(n, |d| - p);
      assert d[p..Min(p + n, |d|)] == d[p..][..m];
      assert e[q..Min(q + n, |e|)] == e[q..][..m];
    }
  }

  lemma {:induction false} ReadFieldsSame(d: seq<byte>, p: nat, e: seq<byte>, q: nat,
                                          fields: seq<Field>, selected: set<string>, acc: Values)
    requires SameFrom(d, p, e, q)
    ensures ReadFields(d, p, fields, selected, acc) == ReadFields(e, q, fields, selected, acc)
    decreases |fields|
  {
    if fields != [] {
      var f := fields[0];
      ReadAtSame(d, p, e, q, f.length);
      SameFromAdvance(d, p, e, q, f.length);
      var acc' := if f.name in selected then acc[f.name := ReadAt(d, p, f.length)] else acc;
      ReadFieldsSame(d, p + f.length, e, q + f.length, fields[1..], selected, acc');
    }
  }

  /** The walk from an offset is a function of the bytes from that offset on. */
  lemma {:induction false} WalkSame(d: seq<byte>, p: nat, e: seq<byte>, q: nat,
                                    fields: seq<Field>, selected: set<string>, recordType: byte)
    requires SameFrom(d, p, e, q)
    ensures Walk(d, p, fields, selected, recordType) == Walk(e, q, fields, selected, recordType)
    decreases |d| - p
  {
    if p < |d| {
      assert d[p] == d[p..][0] == e[q..][0] == e[q];
      var w := Width(fields);
      SameFromAdvance(d, p, e, q, 1 + w);
      WalkSame(d, p + 1 + w, e, q + 1 + w, fields, selected, recordType);
      SameFromAdvance(d, p, e, q, 1);
      ReadFieldsSame(d, p + 1, e, q + 1, fields, selected, map[]);
      WalkStepSame(d, p, e, q, fields, selected, recordType);
    }
  }

  /** Two walks agree at offsets with the same marker once they agree on the record body and on the rest. */
  lemma WalkStepSame(d: seq<byte>, p: nat, e: seq<byte>, q: nat, fields: seq<Field>, selected: set<string>, recordType: byte)
    requires p < |d| && q < |e| && d[p] == e[q]
    requires ReadFields(d, p + 1, fields, selected, map[]) == ReadFields(e, q + 1, fields, selected, map[])
    requires Walk(d, p + 1 + Width(fields), fields, selected, recordType) == Walk(e, q + 1 + Width(fields), fields, selected, recordType)
    ensures Walk(d, p, fields, selected, recordType) == Walk(e, q, fields, selected, recordType)
  {
    WalkUnfold(d, p, fields, selected, recordType);
    WalkUnfold(e, q, fields, selected, recordType);
  }

  /** One step of the walk at an offset inside the file. */
  lemma WalkUnfold(d: seq<byte>, p: nat, fields: seq<Field>, selected: set<string>, recordType: byte)
    requires p < |d|
    ensures Walk(d, p, fields, selected, recordType)
         == if d[p] == recordType then
              [ReadFields(d, p + 1, fields, selected, map[])] + Walk(d, p + 1 + Width(fields), fields, selected, recordType)
            else if d[p] == EndMarker then []
            else Walk(d, p + 1 + Width(fields), fields, selected, recordType)
  {
  }

  /** Reading starts at the end of the header: the header bytes play no part in the records. */
  lemma HeaderIgnored(data: seq<byte>, headerLen: nat, fields: seq<Field>, selected: set<string>, recordType: byte)
    requires headerLen <= |data|
    ensures Walk(data, headerLen, fields, selected, recordType) == Walk(data[headerLen..], 0, fields, selected, recordType)
  {
    WalkSame(data, headerLen, data[headerLen..], 0, fields, selected, recordType);
  }

  /** A record body decodes the same in any file that holds the same bytes over its width. */
  lemma {:induction false} ReadFieldsAgree(d: seq<byte>, e: seq<byte>, p: nat,
                                           fields: seq<Field>, selected: set<string>, acc: Values)
    requires p + Width(fields) <= |d| && p + Width(fields) <= |e|
    requires forall k :: p <= k < p + Width(fields) ==> d[k] == e[k]
    ensures ReadFields(d, p, fields, selected, acc) == ReadFields(e, p, fields, selected, acc)
    decreases |fields|
  {
    if fields != [] {
      var f := fields[0];
      assert d[p..p + f.length] == e[p..p + f.length];
      var acc' := if f.name in selected then acc[f.name := ReadAt(d, p, f.length)] else acc;
      ReadFieldsAgree(d, e, p + f.length, fields[1..], selected, acc');
    }
  }

  /**
   * The file consists of whole records, none of which stops the walk: every
   * record is a marker that is the record type or not the end marker, followed
   * by the record's width of bytes.
   */
  ghost predicate WholeRecords(a: seq<byte>, width: nat, recordType: byte)
    decreases |a|
  {
    a == [] || (1 + width <= |a| && (a[0] == recordType || a[0] != EndMarker) && WholeRecords(a[1 + width..], width, recordType))
  }

  /** Walking whole records and then more bytes yields the records of each, one after the other. */
  lemma {:induction false} WalkAppend(a: seq<byte>, b: seq<byte>, fields: seq<Field>, selected: set<string>, recordType: byte)
    requires WholeRecords(a, Width(fields), recordType)
    ensures Walk(a + b, 0, fields, selected, recordType)
         == Walk(a, 0, fields, selected, recordType) + Walk(b, 0, fields, selected, recordType)
    decreases |a|
  {
    var w := Width(fields);
    if a == [] {
      assert a + b == b;
    } else {
      var a' := a[1 + w..];
      WalkAppend(a', b, fields, selected, recordType);
      assert SameFrom(a + b, 1 + w, a' + b, 0) by { assert (a + b)[1 + w..] == a' + b; }
      WalkSame(a + b, 1 + w, a' + b, 0, fields, selected, recordType);
      WalkSame(a, 1 + w, a', 0, fields, selected, recordType);
      ReadFieldsAgree(a + b, a, 1, fields, selected, map[]);
      WalkConsAppend(a + b, a, fields, selected, recordType, Walk(b, 0, fields, selected, recordType));
    }
  }

  /**
   * Walks from offset 0 of two files that agree on the first record and whose
   * rests differ by a suffix, when the first marker does not stop the walk.
   */
  lemma WalkConsAppend(d: seq<byte>, a: seq<byte>, fields: seq<Field>, selected: set<string>, recordType: byte, tail: seq<Values>)
    requires 0 < |a| && 0 < |d| && d[0] == a[0] && (a[0] == recordType || a[0] != EndMarker)
    requires ReadFields(d, 1, fields, selected, map[]) == ReadFields(a, 1, fields, selected, map[])
    requires Walk(d, 1 + Width(fields), fields, selected, recordType) == Walk(a, 1 + Width(fields), fields, selected, recordType) + tail
    ensures Walk(d, 0, fields, selected, recordType) == Walk(a, 0, fields, selected, recordType) + tail
  {
    WalkHead(d, 0, fields, selected, recordType);
    WalkHead(a, 0, fields, selected, recordType);
    ConcatAssoc(Yielded(a, 0, fields, selected, recordType), Walk(a, 1 + Width(fields), fields, selected, recordType), tail);
  }

  /** What the record at offset p yields itself: its decoded body under the record type, else nothing. */
  function Yielded(d: seq<byte>, p: nat, fields: seq<Field>, selected: set<string>, recordType: byte): seq<Values>
    requires p < |d|
  {
    if d[p] == recordType then [ReadFields(d, p + 1, fields, selected, map[])] else []
  }

  /** A record that does not stop the walk yields its own records, then the walk goes on after it. */
  lemma WalkHead(d: seq<byte>, p: nat, fields: seq<Field>, selected: set<string>, recordType: byte)
    requires p < |d| && (d[p] == recordType || d[p] != EndMarker)
    ensures Walk(d, p, fields, selected, recordType)
         == Yielded(d, p, fields, selected, recordType) + Walk(d, p + 1 + Width(fields), fields, selected, recordType)
  {
    WalkUnfold(d, p, fields, selected, recordType);
    if d[p] != recordType {
      assert [] + Walk(d, p + 1 + Width(fields), fields, selected, recordType) == Walk(d, p + 1 + Width(fields), fields, selected, recordType);
    }
  }

  /** At a record under the record type, the walk yields what running the plan over its body reads. */
  lemma ActiveStep(d: seq<byte>, p: nat, fields: seq<Field>, selected: set<string>, recordType: byte, lineValues: Values)
    requires p < |d| && d[p] == recordType
    requires lineValues == RunPlan(d, p + 1, Plan(fields, selected), map[])
    ensures Walk(d, p, fields, selected, recordType) == [lineValues] + Walk(d, p + 1 + Width(fields), fields, selected, recordType)
  {
    PlanReadsFields(d, p + 1, fields, selected, map[]);
    WalkHead(d, p, fields, selected, recordType);
  }

  /** The walk yields nothing at the end of the file or at an end marker that is not the record type. */
  lemma WalkEnds(d: seq<byte>, p: nat, fields: seq<Field>, selected: set<string>, recordType: byte)
    requires p >= |d| || (d[p] == EndMarker && d[p] != recordType)
    ensures Walk(d, p, fields, selected, recordType) == []
  {
  }

  lemma ConcatAssoc<T>(x: seq<T>, y: seq<T>, z: seq<T>)
    ensures x + (y + z) == (x + y) + z
  {
  }

  /**
   * An active record yields one record holding the bytes of its body, and the
   * walk continues right after it, 1 + width bytes later.
   */
  lemma ActiveRecordRead(body: seq<byte>, b: seq<byte>, fields: seq<Field>, selected: set<string>, recordType: byte)
    requires |body| == Width(fields)
    ensures Walk([recordType] + body + b, 0, fields, selected, recordType)
         == [ReadFields(body, 0, fields, selected, map[])] + Walk(b, 0, fields, selected, recordType)
  {
    var d := [recordType] + body + b;
    assert SameFrom(d, 1, body + b, 0);
    ReadFieldsSame(d, 1, body + b, 0, fields, selected, map[]);
    ReadFieldsAgree(body + b, body, 0, fields, selected, map[]);
    assert SameFrom(d, 1 + |body|, b, 0);
    WalkSame(d, 1 + |body|, b, 0, fields, selected, recordType);
  }

  /**
   * A record under any other marker than the record type and the end marker
   * contributes nothing: the walk is that of the file without it.
   */
  lemma SkippedRecordInvisible(a: seq<byte>, marker: byte, body: seq<byte>, b: seq<byte>,
                               fields: seq<Field>, selected: set<string>, recordType: byte)
    requires WholeRecords(a, Width(fields), recordType)
    requires marker != recordType && marker != EndMarker && |body| == Width(fields)
    ensures Walk(a + [marker] + body + b, 0, fields, selected, recordType)
         == Walk(a + b, 0, fields, selected, recordType)
  {
    assert a + [marker] + body + b == a + ([marker] + body + b);
    WalkAppend(a, [marker] + body + b, fields, selected, recordType);
    WalkAppend(a, b, fields, selected, recordType);
    assert SameFrom([marker] + body + b, 1 + |body|, b, 0);
    WalkSame([marker] + body + b, 1 + |body|, b, 0, fields, selected, recordType);
  }

  /**
   * The default walk over live records passes over a soft-deleted record, and
   * the walk over deleted records passes over a live one.
   */
  lemma DeletedRecordHidden(a: seq<byte>, body: seq<byte>, b: seq<byte>, fields: seq<Field>, selected: set<string>)
    requires |body| == Width(fields)
    ensures WholeRecords(a, Width(fields), ActiveMarker) ==>
      Walk(a + [DeletedMarker] + body + b, 0, fields, selected, ActiveMarker) == Walk(a + b, 0, fields, selected, ActiveMarker)
    ensures WholeRecords(a, Width(fields), DeletedMarker) ==>
      Walk(a + [ActiveMarker] + body + b, 0, fields, selected, DeletedMarker) == Walk(a + b, 0, fields, selected, DeletedMarker)
  {
    if WholeRecords(a, Width(fields), ActiveMarker) {
      SkippedRecordInvisible(a, DeletedMarker, body, b, fields, selected, ActiveMarker);
    }
    if WholeRecords(a, Width(fields), DeletedMarker) {
      SkippedRecordInvisible(a, ActiveMarker, body, b, fields, selected, DeletedMarker);
    }
  }

  /** Nothing after the end-of-data marker is read: the walk ends with the records before it. */
  lemma EndMarkerStops(a: seq<byte>, rest: seq<byte>, fields: seq<Field>, selected: set<string>, recordType: byte)
    requires WholeRecords(a, Width(fields), recordType)
    requires recordType != EndMarker
    ensures Walk(a + [EndMarker] + rest, 0, fields, selected, recordType) == Walk(a, 0, fields, selected, recordType)
  {
    assert a + [EndMarker] + rest == a + ([EndMarker] + rest);
    WalkAppend(a, [EndMarker] + rest, fields, selected, recordType);
  }

  /** The body of the active-record branch: run the plan from pos, seeking over skips and reading keeps. */
  method ReadRecord(data: seq<byte>, pos: nat, plan: seq<Entry>) returns (lineValues: Values, next: nat)
    ensures lineValues == RunPlan(data, pos, plan, map[])
    ensures next == pos + Span(plan)
  {
    lineValues := map[];
    next := pos;
    for j := 0 to |plan|
      invariant RunPlan(data, next, plan[j..], lineValues) == RunPlan(data, pos, plan, map[])
      invariant next + Span(plan[j..]) == pos + Span(plan)
    {
      assert plan[j..][1..] == plan[j + 1..];
      match plan[j]
      case Skip(n) =>
        next := next + n;
      case Keep(name, n) =>
        lineValues := lineValues[name := ReadAt(data, next, n)];
        next := next + n;
    }
    assert plan[|plan|..] == [];
  }

  /**
   * _fast_iter_records: seek to the end of the header, then read one marker
   * byte per record and either run the plan, stop, or skip the record.
   * The skip of dbfread's _skip_record is taken as the sum of the field lengths.
   */
  method IterRecords(data: seq<byte>, headerLen: nat, fields: seq<Field>, selected: set<string>, recordType: byte)
    returns (records: seq<Values>)
    requires NamesUsable(fields, selected)
    ensures records == Walk(data, headerLen, fields, selected, recordType)
    ensures forall r :: r in records ==> r.Keys == WantedNames(fields, selected)
  {
    var plan := CreateSkipSequence(selected, fields);
    var width := Width(fields);
    var pos := headerLen;
    records := [];
    while true
      invariant records + Walk(data, pos, fields, selected, recordType) == Walk(data, headerLen, fields, selected, recordType)
      decreases |data| - pos
    {
      if pos >= |data| {
        WalkEnds(data, pos, fields, selected, recordType);
        break;
      }
      ghost var at := pos;
      var sep := data[pos];
      pos := pos + 1;
      if sep == recordType {
        var lineValues;
        lineValues, pos := ReadRecord(data, pos, plan);
        ActiveStep(data, at, fields, selected, recordType, lineValues);
        ConcatAssoc(records, [lineValues], Walk(data, pos, fields, selected, recordType));
        records := records + [lineValues];
      } else if sep == EndMarker {
        WalkEnds(data, at, fields, selected, recordType);
        break;
      } else {
        WalkHead(data, at, fields, selected, recordType);
        assert Yielded(data, at, fields, selected, recordType) == [];
        pos := pos + width;
      }
    }
    WalkKeys(data, headerLen, fields, selected, recordType);
  }
}
