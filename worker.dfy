/**
 * The conversion workers: the channel demultiplexer that turns a cyclic,
 * interleaved stream of single-channel readings into wide CSV rows.
 *
 * Output is a sequence of text fragments: the header line, then one fragment
 * per kept reading, which either starts a new row (newline, date, time,
 * value) or extends the current one (comma, value). The counter
 * tagsWritten decides which, and is the only state carried between readings.
 */
module Worker {

  type byte = bv8

  const Newline: byte := 0x0A

  /** A line of the legacy text form, as raw bytes (its newline included). */
  type Line = seq<byte>

  /** One reading as the line-layout utility splits a legacy line: date, time, channel id, value. */
  datatype Reading = Reading(date: string, time: string, channel: string, value: string)

  /** One single-channel record as the demultiplexer sees it; the value is already text. */
  datatype Record = Record(date: string, time: string, value: string)

  /**
   * A selected tag absent from the catalog (list.index fails), a cycle length
   * of zero (modulo by zero), or an empty input file (mmap refuses to map it).
   */
  datatype Error = UnknownTag | ZeroDivision | EmptyFile

  datatype Result<T> = Ok(value: T) | Err(error: Error)

  // ---------------------------------------------------------------------------
  // Column selection and the header line

  /** Position of the first occurrence of t in the catalog (list.index). */
  function IndexOf(lookup: seq<string>, t: string): (i: nat)
    requires t in lookup
    ensures i < |lookup| && lookup[i] == t
    ensures forall j :: 0 <= j < i ==> lookup[j] != t
  {
    if lookup[0] == t then 0 else 1 + IndexOf(lookup[1..], t)
  }

  /** Every selected tag is in the catalog. */
  predicate AllKnown(lookup: seq<string>, tags: set<string>)
  {
    forall t :: t in tags ==> t in lookup
  }

  /**
   * The catalog indices of the selected tags from position `from` on, in
   * ascending order: the sorted list of indices the workers compute, found by
   * scanning the catalog instead of sorting.
   */
  function IndicesFrom(lookup: seq<string>, tags: set<string>, from: nat): (r: seq<nat>)
    requires from <= |lookup|
    ensures forall k :: 0 <= k < |r| ==> from <= r[k] < |lookup|
    ensures forall k, l :: 0 <= k < l < |r| ==> r[k] < r[l]
    ensures forall k :: 0 <= k < |r| ==> lookup[r[k]] in tags && IndexOf(lookup, lookup[r[k]]) == r[k]
    ensures forall t :: t in tags && t in lookup && from <= IndexOf(lookup, t) ==> IndexOf(lookup, t) in r
    decreases |lookup| - from
  {
    if from == |lookup| then []
    else
      var rest := IndicesFrom(lookup, tags, from + 1);
      if lookup[from] in tags && IndexOf(lookup, lookup[from]) == from then [from] + rest else rest
  }

  function SelectedIndices(lookup: seq<string>, tags: set<string>): seq<nat>
  {
    IndicesFrom(lookup, tags, 0)
  }

  /** The tag names of the given catalog indices. */
  function Names(lookup: seq<string>, lines: seq<nat>): seq<string>
    requires forall k :: 0 <= k < |lines| ==> lines[k] < |lookup|
  {
    seq(|lines|, k requires 0 <= k < |lines| => lookup[lines[k]])
  }

  /** The parts separated by sep (str.join). */
  function Join(sep: string, parts: seq<string>): string
  {
    if parts == [] then "" else if |parts| == 1 then parts[0] else parts[0] + sep + Join(sep, parts[1..])
  }

  function HeaderLine(names: seq<string>): string
  {
    Join(",", ["Date", "Time"] + names)
  }

  /** The concatenation of fragments ("".join). */
  function Concat<T>(parts: seq<seq<T>>): seq<T>
  {
    if parts == [] then [] else parts[0] + Concat(parts[1..])
  }

  /** Each part preceded by the separator. */
  function Prefixed(sep: string, parts: seq<string>): seq<string>
  {
    seq(|parts|, k requires 0 <= k < |parts| => sep + parts[k])
  }

  lemma {:induction false} JoinCons(sep: string, x: string, rest: seq<string>)
    ensures Join(sep, [x] + rest) == x + Concat(Prefixed(sep, rest))
    decreases |rest|
  {
    if rest == [] {
      assert Prefixed(sep, rest) == [];
    } else {
      assert ([x] + rest)[1..] == rest == [rest[0]] + rest[1..];
      JoinCons(sep, rest[0], rest[1..]);
      assert Prefixed(sep, rest)[1..] == Prefixed(sep, rest[1..]);
    }
  }

  /**
   * The header line is "Date,Time" followed by a comma and a name for every
   * selected column, in the order given.
   */
  lemma HeaderColumns(names: seq<string>)
    ensures HeaderLine(names) == "Date,Time" + Concat(Prefixed(",", names))
  {
    assert ["Date", "Time"] + names == ["Date"] + (["Time"] + names);
    JoinCons(",", "Date", ["Time"] + names);
    JoinCons(",", "Time", names);
    var p := Prefixed(",", ["Time"] + names);
    assert p[0] == "," + "Time";
    assert p[1..] == Prefixed(",", names);
    assert Concat(p) == "," + "Time" + Concat(Prefixed(",", names));
  }

  // ---------------------------------------------------------------------------
  // The demultiplexer

  /** Whether the k-th kept record (from 0) starts a new row. */
  predicate StartsRow(k: nat, numTags: nat)
  {
    if numTags == 0 then k == 0 else k % numTags == 0
  }

  /** The fragment of the k-th kept record. */
  function Fragment(r: Record, k: nat, numTags: nat): string
  {
    if StartsRow(k, numTags) then "\n" + r.date + "," + r.time + "," + r.value else "," + r.value
  }

  /** The fragments of a stream of kept records, each placed by its position in the stream. */
  function Demux(records: seq<Record>, numTags: nat): seq<string>
  {
    seq(|records|, k requires 0 <= k < |records| => Fragment(records[k], k, numTags))
  }

  /** The value of tagsWritten after m kept records, for numTags selected tags. */
  function CounterAfter(m: nat, numTags: nat): nat
  {
    if m == 0 then numTags else if numTags == 0 then m else (m - 1) % numTags + 1
  }

  /**
   * The counter protocol: a record starts a row exactly when the counter
   * stands at numTags, and the counter then restarts at 1; otherwise it grows by one.
   */
  lemma CounterStep(m: nat, numTags: nat)
    ensures (CounterAfter(m, numTags) == numTags) == StartsRow(m, numTags)
    ensures CounterAfter(m + 1, numTags)
         == if StartsRow(m, numTags) then 1 else CounterAfter(m, numTags) + 1
  {
    if numTags > 0 {
      if m == 0 {
        DivModUnique(0, numTags, 0, 0);
      } else {
        var q, r := (m - 1) / numTags, (m - 1) % numTags;
        DivModUnique(m - 1, numTags, q, r);
        if r == numTags - 1 {
          DivModUnique(m, numTags, q + 1, 0);
        } else {
          DivModUnique(m, numTags, q, r + 1);
        }
      }
    }
  }

  /** After at least one kept record and with a non-empty selection, the counter lies in 1..numTags. */
  lemma CounterRange(m: nat, numTags: nat)
    requires m >= 1 && numTags >= 1
    ensures 1 <= CounterAfter(m, numTags) <= numTags
    ensures CounterAfter(m, numTags) == 1 <==> StartsRow(m - 1, numTags)
  {
    CounterStep(m - 1, numTags);
  }

  lemma DemuxSnoc(records: seq<Record>, r: Record, numTags: nat)
    ensures Demux(records + [r], numTags) == Demux(records, numTags) + [Fragment(r, |records|, numTags)]
  {
    var a, b := Demux(records + [r], numTags), Demux(records, numTags) + [Fragment(r, |records|, numTags)];
    assert |a| == |b|;
    forall k | 0 <= k < |a| ensures a[k] == b[k] {
      if k < |records| { assert (records + [r])[k] == records[k]; }
    }
  }

  /** Fragments that begin with a newline: the rows started. */
  function RowStarts(frags: seq<string>): nat
  {
    if frags == [] then 0
    else
      var last := frags[|frags| - 1];
      RowStarts(frags[..|frags| - 1]) + (if |last| > 0 && last[0] == '\n' then 1 else 0)
  }

  /** The text of one row: date and time of its first record, then every record's value. */
  function RowText(group: seq<Record>): string
    requires group != []
  {
    "\n" + group[0].date + "," + group[0].time + Concat(seq(|group|, j requires 0 <= j < |group| => "," + group[j].value))
  }

  /** The records cut into rows of numTags, the last one possibly short, each written as one line. */
  function RowsText(records: seq<Record>, numTags: nat): string
    requires numTags >= 1
    decreases |records|
  {
    if records == [] then ""
    else
      var k := if numTags <= |records| then numTags else |records|;
      RowText(records[..k]) + RowsText(records[k..], numTags)
  }

  lemma {:induction false} ConcatAppend<T>(a: seq<seq<T>>, b: seq<seq<T>>)
    ensures Concat(a + b) == Concat(a) + Concat(b)
  {
    if a == [] {
      assert a + b == b;
    } else {
      assert (a + b)[1..] == a[1..] + b;
      ConcatAppend(a[1..], b);
    }
  }

  /** The number of rows started by k kept records is k divided by numTags, rounded up. */
  lemma {:induction false} RowCount(records: seq<Record>, numTags: nat)
    requires numTags >= 1
    ensures RowStarts(Demux(records, numTags)) == (|records| + numTags - 1) / numTags
    decreases |records|
  {
    var m := |records|;
    if m == 0 {
      DivModUnique(numTags - 1, numTags, 0, numTags - 1);
    } else {
      var init, last := records[..m - 1], records[m - 1];
      RowCount(init, numTags);
      assert records == init + [last];
      DemuxSnoc(init, last, numTags);
      var d := Demux(records, numTags);
      assert d[..m - 1] == Demux(init, numTags);
      var f := Fragment(last, m - 1, numTags);
      assert d[m - 1] == f;
      assert (|f| > 0 && f[0] == '\n') == StartsRow(m - 1, numTags);
      CeilSucc(m - 1, numTags);
    }
  }

  lemma CeilSucc(m: nat, n: nat)
    requires n >= 1
    ensures (m + n) / n == (m + n - 1) / n + (if m % n == 0 then 1 else 0)
  {
    var q, r := m / n, m % n;
    DivModUnique(m, n, q, r);
    DivModUnique(m + n, n, q + 1, r);
    if r == 0 {
      DivModUnique(m + n - 1, n, q, n - 1);
    } else {
      DivModUnique(m + n - 1, n, q + 1, r - 1);
    }
  }

  /** From a multiple of numTags on, the fragments are those of a fresh stream. */
  lemma DemuxSplit(records: seq<Record>, numTags: nat, k: nat)
    requires numTags >= 1 && k <= |records| && k % numTags == 0
    ensures Demux(records, numTags) == Demux(records[..k], numTags) + Demux(records[k..], numTags)
  {
    var a, b := Demux(records, numTags), Demux(records[..k], numTags) + Demux(records[k..], numTags);
    assert |a| == |b|;
    forall j | 0 <= j < |a| ensures a[j] == b[j] {
      if j >= k {
        var q := k / numTags;
        DivModUnique(k, numTags, q, 0);
        DivModUnique(j, numTags, q + (j - k) / numTags, (j - k) % numTags);
        assert StartsRow(j, numTags) == StartsRow(j - k, numTags);
      }
    }
  }

  /** The fragments of at most numTags records, starting a row, join into one row's text. */
  lemma DemuxOneRow(group: seq<Record>, numTags: nat)
    requires 1 <= |group| <= numTags
    ensures Concat(Demux(group, numTags)) == RowText(group)
  {
    var d := Demux(group, numTags);
    var vals := seq(|group|, j requires 0 <= j < |group| => "," + group[j].value);
    DivModUnique(0, numTags, 0, 0);
    forall j | 1 <= j < |group| ensures d[j] == vals[j] {
      DivModUnique(j, numTags, 0, j);
    }
    assert d[1..] == vals[1..];
    assert Concat(vals) == vals[0] + Concat(vals[1..]);
    assert Concat(d) == d[0] + Concat(d[1..]);
  }

  /**
   * Demultiplexing: the joined fragments are the records cut into wide rows of
   * numTags values each, in stream order; a short final cycle is written as a
   * partial row, not dropped.
   */
  lemma {:induction false} DemuxRows(records: seq<Record>, numTags: nat)
    requires numTags >= 1
    ensures Concat(Demux(records, numTags)) == RowsText(records, numTags)
    decreases |records|
  {
    if records != [] {
      var k := if numTags <= |records| then numTags else |records|;
      if k == numTags {
        DivModUnique(k, numTags, 1, 0);
        DemuxSplit(records, numTags, k);
      } else {
        assert records[k..] == [] && records[..k] == records;
      }
      DemuxRows(records[k..], numTags);
      DemuxOneRow(records[..k], numTags);
      ConcatAppend(Demux(records[..k], numTags), Demux(records[k..], numTags));
    }
  }

  // ---------------------------------------------------------------------------
  // The legacy text form: lines and the cyclic filter

  /** Python's % (the result takes the sign of the divisor). */
  function PyMod(i: int, t: int): (r: int)
    requires t != 0
    ensures t > 0 ==> 0 <= r < t
    ensures t < 0 ==> t < r <= 0
  {
    var m := i % t;
    if t < 0 && m != 0 then m + t else m
  }

  /**
   * The record a legacy line contributes, through the line-layout utility
   * (data_from_line; val_from_line is taken to give the same value).
   */
  function ToRecord(rd: Reading): Record
  {
    Record(rd.date, rd.time, rd.value)
  }

  /** The selected cyclic positions as a set (lines_set). */
  function Wanted(lines: seq<nat>): set<int>
  {
    set l | l in lines :: l as int
  }

  /**
   * The records kept from the data lines: line i (counted from off) is kept
   * when its cyclic position i % totalTags is selected.
   */
  function KeptAt(data: seq<Line>, off: nat, totalTags: int, wanted: set<int>, parse: Line -> Reading): seq<Record>
    requires totalTags != 0 || data == []
  {
    if data == [] then []
    else
      var i := |data| - 1;
      KeptAt(data[..i], off, totalTags, wanted, parse)
        + (if PyMod(off + i, totalTags) in wanted then [ToRecord(parse(data[i]))] else [])
  }

  /** The data lines: everything after the header line (islice from 1). */
  function DataLines(input: seq<Line>): seq<Line>
  {
    if input == [] then [] else input[1..]
  }

  /** The positions of lines below m, in order. */
  function Below(lines: seq<nat>, m: nat): seq<nat>
  {
    if lines == [] then [] else (if lines[0] < m then [lines[0]] else []) + Below(lines[1..], m)
  }

  predicate Increasing(lines: seq<nat>)
  {
    forall k, l :: 0 <= k < l < |lines| ==> lines[k] < lines[l]
  }

  /** The records of the lines of one cycle at the given positions, in that order. */
  function Pick(block: seq<Line>, positions: seq<nat>, parse: Line -> Reading): seq<Record>
    requires forall k :: 0 <= k < |positions| ==> positions[k] < |block|
  {
    seq(|positions|, k requires 0 <= k < |positions| => ToRecord(parse(block[positions[k]])))
  }

  /**
   * The data lines cut into cycles of totalTags lines (the last one possibly
   * short); from each, the records at the selected positions, in catalog order.
   */
  function Cycles(data: seq<Line>, totalTags: nat, lines: seq<nat>, parse: Line -> Reading): seq<Record>
    requires totalTags >= 1
    decreases |data|
  {
    if data == [] then []
    else
      var b := if totalTags <= |data| then totalTags else |data|;
      BelowBound(lines, b);
      Pick(data[..b], Below(lines, b), parse) + Cycles(data[b..], totalTags, lines, parse)
  }

  /** One output line per input cycle that holds a selected position. */
  function CycleRows(data: seq<Line>, totalTags: nat, lines: seq<nat>, parse: Line -> Reading): string
    requires totalTags >= 1
    decreases |data|
  {
    if data == [] then ""
    else
      var b := if totalTags <= |data| then totalTags else |data|;
      BelowBound(lines, b);
      var group := Pick(data[..b], Below(lines, b), parse);
      (if group == [] then "" else RowText(group)) + CycleRows(data[b..], totalTags, lines, parse)
  }

  lemma {:induction false} BelowBound(lines: seq<nat>, m: nat)
    ensures forall k :: 0 <= k < |Below(lines, m)| ==> Below(lines, m)[k] < m
    ensures forall x :: x in Below(lines, m) ==> x in lines
  {
    if lines != [] {
      BelowBound(lines[1..], m);
    }
  }

  lemma {:induction false} BelowNone(lines: seq<nat>, m: nat)
    requires forall k :: 0 <= k < |lines| ==> lines[k] >= m
    ensures Below(lines, m) == []
  {
    if lines != [] {
      BelowNone(lines[1..], m);
    }
  }

  lemma {:induction false} BelowAll(lines: seq<nat>, m: nat)
    requires forall k :: 0 <= k < |lines| ==> lines[k] < m
    ensures Below(lines, m) == lines
  {
    if lines != [] {
      BelowAll(lines[1..], m);
    }
  }

  /** Raising the bound from m to m + 1 adds m at the end, when m is a selected position. */
  lemma {:induction false} BelowSucc(lines: seq<nat>, m: nat)
    requires Increasing(lines)
    ensures Below(lines, m + 1) == Below(lines, m) + (if m in lines then [m] else [])
  {
    if lines != [] {
      var rest := lines[1..];
      assert Increasing(rest) by {
        forall k, l | 0 <= k < l < |rest| ensures rest[k] < rest[l] {
          assert rest[k] == lines[k + 1] && rest[l] == lines[l + 1];
        }
      }
      assert forall k :: 0 <= k < |rest| ==> rest[k] > lines[0] by {
        forall k | 0 <= k < |rest| ensures rest[k] > lines[0] {
          assert rest[k] == lines[k + 1];
        }
      }
      if lines[0] < m {
        BelowSucc(rest, m);
        assert (m in lines) == (m in rest);
      } else if lines[0] == m {
        BelowNone(rest, m + 1);
        BelowNone(rest, m);
      } else {
        BelowNone(rest, m + 1);
        BelowNone(rest, m);
        assert m !in rest;
      }
    }
  }

  lemma PickSnoc(block: seq<Line>, positions: seq<nat>, p: nat, parse: Line -> Reading)
    requires forall k :: 0 <= k < |positions| ==> positions[k] < |block|
    requires p < |block|
    ensures Pick(block, positions + [p], parse) == Pick(block, positions, parse) + [ToRecord(parse(block[p]))]
  {
  }

  lemma PickPrefix(block: seq<Line>, m: nat, positions: seq<nat>, parse: Line -> Reading)
    requires m <= |block|
    requires forall k :: 0 <= k < |positions| ==> positions[k] < m
    ensures Pick(block[..m], positions, parse) == Pick(block, positions, parse)
  {
  }

  /**
   * Within one cycle starting at a multiple of totalTags, the kept records are
   * those at the selected positions, in increasing position order.
   */
  lemma {:induction false} KeptCycle(block: seq<Line>, r: nat, totalTags: nat, lines: seq<nat>, parse: Line -> Reading)
    requires 1 <= totalTags && |block| <= totalTags && Increasing(lines)
    ensures KeptAt(block, r * totalTags, totalTags, Wanted(lines), parse)
         == (BelowBound(lines, |block|); Pick(block, Below(lines, |block|), parse))
    decreases |block|
  {
    var m := |block|;
    if m == 0 {
      BelowNone(lines, 0);
    } else {
      var init := block[..m - 1];
      KeptCycle(init, r, totalTags, lines, parse);
      DivModUnique(r * totalTags + (m - 1), totalTags, r, m - 1);
      assert (m - 1 in lines) == ((m - 1) as int in Wanted(lines));
      BelowSucc(lines, m - 1);
      BelowBound(lines, m - 1);
      BelowBound(lines, m);
      PickPrefix(block, m - 1, Below(lines, m - 1), parse);
      if m - 1 in lines {
        PickSnoc(block, Below(lines, m - 1), m - 1, parse);
      }
    }
  }

  lemma {:induction false} KeptAppend(a: seq<Line>, b: seq<Line>, off: nat, totalTags: int, wanted: set<int>, parse: Line -> Reading)
    requires totalTags != 0
    ensures KeptAt(a + b, off, totalTags, wanted, parse)
         == KeptAt(a, off, totalTags, wanted, parse) + KeptAt(b, off + |a|, totalTags, wanted, parse)
    decreases |b|
  {
    if b == [] {
      assert a + b == a;
    } else {
      var i := |b| - 1;
      assert (a + b)[..|a| + i] == a + b[..i];
      KeptAppend(a, b[..i], off, totalTags, wanted, parse);
      assert (a + b)[|a| + i] == b[i];
    }
  }

  /** The cyclic filter keeps, from every cycle of data lines, the lines at the selected positions. */
  lemma {:induction false} KeptCycles(data: seq<Line>, r: nat, totalTags: nat, lines: seq<nat>, parse: Line -> Reading)
    requires 1 <= totalTags && Increasing(lines)
    ensures KeptAt(data, r * totalTags, totalTags, Wanted(lines), parse) == Cycles(data, totalTags, lines, parse)
    decreases |data|
  {
    if data != [] {
      var b := if totalTags <= |data| then totalTags else |data|;
      assert data == data[..b] + data[b..];
      KeptAppend(data[..b], data[b..], r * totalTags, totalTags, Wanted(lines), parse);
      KeptCycle(data[..b], r, totalTags, lines, parse);
      if b == totalTags {
        assert r * totalTags + b == (r + 1) * totalTags;
        KeptCycles(data[b..], r + 1, totalTags, lines, parse);
      } else {
        assert data[b..] == [];
      }
    }
  }

  /** Full cycles hold exactly one record per selected position. */
  lemma CycleSize(block: seq<Line>, totalTags: nat, lines: seq<nat>, parse: Line -> Reading)
    requires |block| == totalTags
    requires forall k :: 0 <= k < |lines| ==> lines[k] < totalTags
    ensures (BelowBound(lines, |block|); |Pick(block, Below(lines, |block|), parse)| == |lines|)
  {
    BelowAll(lines, totalTags);
  }

  /**
   * Legacy demultiplexing, end to end: when every selected position lies
   * inside the cycle, the joined fragments are one line per input cycle,
   * holding the date and time of the cycle's first selected line and then the
   * values of the selected lines in catalog order.
   */
  lemma {:induction false} LegacyRows(data: seq<Line>, r: nat, totalTags: nat, lines: seq<nat>, parse: Line -> Reading)
    requires 1 <= totalTags && 1 <= |lines| && Increasing(lines)
    requires forall k :: 0 <= k < |lines| ==> lines[k] < totalTags
    ensures Concat(Demux(KeptAt(data, r * totalTags, totalTags, Wanted(lines), parse), |lines|))
         == CycleRows(data, totalTags, lines, parse)
  {
    KeptCycles(data, r, totalTags, lines, parse);
    DemuxRows(Cycles(data, totalTags, lines, parse), |lines|);
    CyclesRowsText(data, totalTags, lines, parse);
  }

  lemma {:induction false} CyclesRowsText(data: seq<Line>, totalTags: nat, lines: seq<nat>, parse: Line -> Reading)
    requires 1 <= totalTags && 1 <= |lines|
    requires forall k :: 0 <= k < |lines| ==> lines[k] < totalTags
    ensures RowsText(Cycles(data, totalTags, lines, parse), |lines|) == CycleRows(data, totalTags, lines, parse)
    decreases |data|
  {
    if data != [] {
      var b := if totalTags <= |data| then totalTags else |data|;
      BelowBound(lines, b);
      var group := Pick(data[..b], Below(lines, b), parse);
      var rest := Cycles(data[b..], totalTags, lines, parse);
      CyclesRowsText(data[b..], totalTags, lines, parse);
      if b == totalTags {
        CycleSize(data[..b], totalTags, lines, parse);
        assert (group + rest)[..|lines|] == group && (group + rest)[|lines|..] == rest;
      } else {
        assert data[b..] == [];
        assert |group| <= |lines| by { BelowLength(lines, b); }
        if group != [] {
          assert (group + rest) == group;
          assert group[..|group|] == group && group[|group|..] == [];
        }
      }
    }
  }

  lemma {:induction false} BelowLength(lines: seq<nat>, m: nat)
    ensures |Below(lines, m)| <= |lines|
  {
    if lines != [] {
      BelowLength(lines[1..], m);
    }
  }

  // ---------------------------------------------------------------------------
  // Splitting the legacy file into lines

  /** Length of the first line of c: up to and including the first newline, or all of c. */
  function LineEnd(c: seq<byte>): (n: nat)
    requires c != []
    ensures 1 <= n <= |c|
    ensures forall j :: 0 <= j < n - 1 ==> c[j] != Newline
    ensures n < |c| ==> c[n - 1] == Newline
  {
    if c[0] == Newline || |c| == 1 then 1 else 1 + LineEnd(c[1..])
  }

  /** The lines of a file as Python iterates a binary file: each keeps its newline; a last one may lack it. */
  function SplitLines(c: seq<byte>): seq<Line>
    decreases |c|
  {
    if c == [] then [] else var n := LineEnd(c); [c[..n]] + SplitLines(c[n..])
  }

  /** A line holds no newline except possibly as its last byte. */
  predicate NoInnerNewline(l: Line)
  {
    forall j :: 0 <= j < |l| - 1 ==> l[j] != Newline
  }

  /** Non-empty lines, each ending at its first newline, all but the last ending in one. */
  predicate ProperLines(ls: seq<Line>)
  {
    forall k :: 0 <= k < |ls| ==>
      ls[k] != [] && NoInnerNewline(ls[k]) && (k < |ls| - 1 ==> ls[k][|ls[k]| - 1] == Newline)
  }

  /** Splitting into lines loses and adds nothing. */
  lemma {:induction false} SplitLinesRoundTrip(c: seq<byte>)
    ensures Concat(SplitLines(c)) == c
    decreases |c|
  {
    if c != [] {
      var n := LineEnd(c);
      SplitLinesRoundTrip(c[n..]);
      assert c == c[..n] + c[n..];
    }
  }

  /** Split lines are cut exactly after each newline. */
  lemma {:induction false} SplitLinesProper(c: seq<byte>)
    ensures ProperLines(SplitLines(c))
    decreases |c|
  {
    if c != [] {
      var n := LineEnd(c);
      var rest := SplitLines(c[n..]);
      SplitLinesProper(c[n..]);
      var ls := [c[..n]] + rest;
      assert SplitLines(c) == ls;
      assert NoInnerNewline(c[..n]);
      if rest != [] {
        assert c[n..] != [];
        assert c[..n][n - 1] == Newline;
      }
      forall k | 1 <= k < |ls| ensures ls[k] == rest[k - 1] { }
    }
  }

  /**
   * What iterating the memory map of the file yields in Python 3: one item
   * per byte, each a one-byte string, and no lines at all.
   */
  function MmapItems(c: seq<byte>): seq<Line>
  {
    seq(|c|, k requires 0 <= k < |c| => [c[k]])
  }

  /** A two-line file: the memory map yields four one-byte items where there are two lines. */
  lemma MmapItemsAreBytes()
    ensures var c: seq<byte> := [0x48, Newline, 0x41, Newline];
      |MmapItems(c)| == 4 && MmapItems(c)[0] == [0x48] && MmapItems(c)[1] == [Newline]
      && SplitLines(c) == [[0x48, Newline], [0x41, Newline]]
  {
    var c: seq<byte> := [0x48, Newline, 0x41, Newline];
    assert LineEnd(c) == 2;
    assert c[2..] == [0x41, Newline];
    assert LineEnd(c[2..]) == 2;
    assert c[2..][2..] == [];
    assert SplitLines(c[2..]) == [c[2..][..2]] + SplitLines([]);
    assert SplitLines(c) == [c[..2]] + SplitLines(c[2..]);
    assert c[..2] == [0x48, Newline] && c[2..][..2] == [0x41, Newline];
  }

  // ---------------------------------------------------------------------------
  // The selection width

  lemma {:induction false} DistinctCard<T>(s: seq<T>)
    requires forall k, l :: 0 <= k < l < |s| ==> s[k] != s[l]
    ensures |set x | x in s| == |s|
  {
    if s != [] {
      var rest := s[1..];
      DistinctCard(rest);
      assert (set x | x in s) == {s[0]} + (set x | x in rest);
      assert s[0] !in rest by {
        forall k | 0 <= k < |rest| ensures rest[k] != s[0] { assert rest[k] == s[k + 1]; }
      }
    }
  }

  /** With every tag in the catalog, there is one column, hence one record per row, per selected tag. */
  lemma SelectionWidth(lookup: seq<string>, tags: set<string>)
    requires AllKnown(lookup, tags)
    ensures |SelectedIndices(lookup, tags)| == |tags|
  {
    var r := SelectedIndices(lookup, tags);
    var names := Names(lookup, r);
    forall k, l | 0 <= k < l < |names| ensures names[k] != names[l] {
      assert IndexOf(lookup, lookup[r[k]]) == r[k] && IndexOf(lookup, lookup[r[l]]) == r[l];
    }
    DistinctCard(names);
    assert (set x | x in names) == tags by {
      forall t | t in tags ensures t in names {
        var k :| 0 <= k < |r| && r[k] == IndexOf(lookup, t);
        assert names[k] == t;
      }
    }
  }

  // ---------------------------------------------------------------------------
  // The workers

  /** The fragments the legacy worker yields for the given file lines, or the error it raises. */
  function LegacyCsv(lookup: seq<string>, tags: set<string>, totalTags: int, input: seq<Line>,
                     parse: Line -> Reading): Result<seq<string>>
  {
    if !AllKnown(lookup, tags) then Err(UnknownTag)
    else if totalTags == 0 && DataLines(input) != [] then Err(ZeroDivision)
    else
      var lines := SelectedIndices(lookup, tags);
      Ok([HeaderLine(Names(lookup, lines))]
         + Demux(KeptAt(DataLines(input), 0, totalTags, Wanted(lines), parse), |lines|))
  }

  /** The fragments the DBF worker yields for the given table rows, or the error it raises. */
  function DbfCsv(lookup: seq<string>, tags: set<string>, table: seq<Record>): Result<seq<string>>
  {
    if !AllKnown(lookup, tags) then Err(UnknownTag)
    else
      var lines := SelectedIndices(lookup, tags);
      Ok([HeaderLine(Names(lookup, lines))] + Demux(table, |lines|))
  }

  /** Converts one legacy text file: one line per single-channel reading, cycled every totalTags lines. */
  class CsvWorker {
    const filename: string
    const tags: set<string>
    const tagLookup: seq<string>
    const totalTags: int

    /** A cycle length of 0 stands for "as many as the catalog holds". */
    constructor (filename: string, tags: set<string>, tagLookup: seq<string>, totalTags: int)
      ensures this.filename == filename && this.tags == tags && this.tagLookup == tagLookup
      ensures this.totalTags == if totalTags != 0 then totalTags else |tagLookup|
    {
      this.filename := filename;
      this.tags := tags;
      this.tagLookup := tagLookup;
      this.totalTags := if totalTags != 0 then totalTags else |tagLookup|;
    }

    /**
     * generate_csv: the header line, then, for every data line whose cyclic
     * position is selected, a fragment that starts or extends a row.
     */
    method GenerateCsv(input: seq<Line>, parse: Line -> Reading) returns (out: Result<seq<string>>)
      ensures out.Err? <==> !AllKnown(tagLookup, tags) || (totalTags == 0 && |input| > 1)
      ensures !AllKnown(tagLookup, tags) ==> out == Err(UnknownTag)
      ensures out.Ok? ==>
        var lines := SelectedIndices(tagLookup, tags);
        && |out.value| >= 1
        && out.value[0] == HeaderLine(Names(tagLookup, lines))
        && out.value[1..] == Demux(KeptAt(DataLines(input), 0, totalTags, Wanted(lines), parse), |lines|)
      ensures out == LegacyCsv(tagLookup, tags, totalTags, input, parse)
    {
      if !(forall t :: t in tags ==> t in tagLookup) {
        return Err(UnknownTag);
      }
      var lines := SelectedIndices(tagLookup, tags);
      var linesSet := Wanted(lines);
      var total := totalTags;
      var frags := [HeaderLine(Names(tagLookup, lines))];
      var numTags := |lines|;
      var tagsWritten := numTags;
      var data := DataLines(input);
      ghost var kept: seq<Record> := [];
      for i := 0 to |data|
        invariant total != 0 || i == 0
        invariant kept == KeptAt(data[..i], 0, total, linesSet, parse)
        invariant frags == [HeaderLine(Names(tagLookup, lines))] + Demux(kept, numTags)
        invariant tagsWritten == CounterAfter(|kept|, numTags)
      {
        if total == 0 {
          return Err(ZeroDivision);
        }
        assert data[..i + 1][..i] == data[..i];
        if PyMod(i, total) in linesSet {
          var line := data[i];
          CounterStep(|kept|, numTags);
          DemuxSnoc(kept, ToRecord(parse(line)), numTags);
          if tagsWritten == numTags {
            var reading := parse(line);
            frags := frags + ["\n" + reading.date + "," + reading.time + "," + reading.value];
            tagsWritten := 1;
          } else {
            frags := frags + ["," + parse(line).value];
            tagsWritten := tagsWritten + 1;
          }
          kept := kept + [ToRecord(parse(line))];
        }
      }
      assert data[..|data|] == data;
      out := Ok(frags);
    }

    /**
     * convert: the file is mapped, split into lines and the joined fragments
     * are written. An empty file cannot be mapped, so the call fails before the
     * output file is created; on any later error the output file is created
     * but stays empty.
     */
    method Convert(content: seq<byte>, parse: Line -> Reading) returns (created: bool, written: string, result: Result<string>)
      ensures content == [] ==> !created && written == "" && result == Err(EmptyFile)
      ensures content != [] ==> created && var csv := LegacyCsv(tagLookup, tags, totalTags, SplitLines(content), parse);
        && (csv.Ok? ==> result == Ok(Concat(csv.value)) && written == Concat(csv.value))
        && (csv.Err? ==> result == Err(csv.error) && written == "")
    {
      if content == [] {
        return false, "", Err(EmptyFile);
      }
      created := true;
      var csv := GenerateCsv(SplitLines(content), parse);
      match csv
      case Ok(frags) =>
        written := Concat(frags);
        result := Ok(written);
      case Err(e) =>
        written := "";
        result := Err(e);
    }

    /** work: convert, then report the converted file by its name. */
    method Work(content: seq<byte>, parse: Line -> Reading) returns (outcome: Result<string>)
      ensures content == [] ==> outcome == Err(EmptyFile)
      ensures content != [] ==> var csv := LegacyCsv(tagLookup, tags, totalTags, SplitLines(content), parse);
        outcome == if csv.Ok? then Ok(filename) else Err(csv.error)
    {
      var _, _, result := Convert(content, parse);
      if result.Err? {
        return Err(result.error);
      }
      outcome := Ok(filename);
    }
  }

  /** Converts one DBF table whose rows are single-channel records already selected by the parser. */
  class DbfWorker {
    const filename: string
    const tags: set<string>
    const tagLookup: seq<string>
    const totalTags: int

    constructor (filename: string, tags: set<string>, tagLookup: seq<string>, totalTags: int)
      ensures this.filename == filename && this.tags == tags && this.tagLookup == tagLookup
      ensures this.totalTags == if totalTags != 0 then totalTags else |tagLookup|
    {
      this.filename := filename;
      this.tags := tags;
      this.tagLookup := tagLookup;
      this.totalTags := if totalTags != 0 then totalTags else |tagLookup|;
    }

    /** generate_csv: the header line, then one fragment per table row, with no cyclic filtering. */
    method GenerateCsv(table: seq<Record>) returns (out: Result<seq<string>>)
      ensures out.Err? <==> !AllKnown(tagLookup, tags)
      ensures out.Ok? ==> |out.value| == 1 + |table|
      ensures out.Ok? ==>
        var lines := SelectedIndices(tagLookup, tags);
        && out.value[0] == HeaderLine(Names(tagLookup, lines))
        && out.value[1..] == Demux(table, |lines|)
      ensures out == DbfCsv(tagLookup, tags, table)
    {
      if !(forall t :: t in tags ==> t in tagLookup) {
        return Err(UnknownTag);
      }
      var lines := SelectedIndices(tagLookup, tags);
      var frags := [HeaderLine(Names(tagLookup, lines))];
      var numTags := |lines|;
      var tagsWritten := numTags;
      for i := 0 to |table|
        invariant frags == [HeaderLine(Names(tagLookup, lines))] + Demux(table[..i], numTags)
        invariant tagsWritten == CounterAfter(i, numTags)
      {
        var row := table[i];
        CounterStep(i, numTags);
        DemuxSnoc(table[..i], row, numTags);
        assert table[..i + 1] == table[..i] + [row];
        if tagsWritten == numTags {
          frags := frags + ["\n" + row.date + "," + row.time + "," + row.value];
          tagsWritten := 1;
        } else {
          frags := frags + ["," + row.value];
          tagsWritten := tagsWritten + 1;
        }
      }
      assert table[..|table|] == table;
      out := Ok(frags);
    }

    /** convert: the joined fragments are written; on an error the output file stays empty. */
    method Convert(table: seq<Record>) returns (written: string, result: Result<string>)
      ensures var csv := DbfCsv(tagLookup, tags, table);
        && (csv.Ok? ==> result == Ok(Concat(csv.value)) && written == Concat(csv.value))
        && (csv.Err? ==> result == Err(csv.error) && written == "")
    {
      var csv := GenerateCsv(table);
      match csv
      case Ok(frags) =>
        written := Concat(frags);
        result := Ok(written);
      case Err(e) =>
        written := "";
        result := Err(e);
    }

    /** work (inherited): convert, then report the converted file by its name. */
    method Work(table: seq<Record>) returns (outcome: Result<string>)
      ensures var csv := DbfCsv(tagLookup, tags, table);
        outcome == if csv.Ok? then Ok(filename) else Err(csv.error)
    {
      var _, result := Convert(table);
      if result.Err? {
        return Err(result.error);
      }
      outcome := Ok(filename);
    }
  }

  // ---------------------------------------------------------------------------
  // Arithmetic

  lemma MulNonneg(a: int, b: int)
    requires a >= 0 && b >= 0
    ensures a * b >= 0
  {}

  lemma MulMonotone(d: int, n: int)
    requires n > 0
    ensures d >= 1 ==> d * n >= n
    ensures d <= -1 ==> d * n <= -n
  {
    if d >= 1 { assert d * n == (d - 1) * n + n; MulNonneg(d - 1, n); }
    if d <= -1 { assert d * n == -((-d - 1) * n) - n; MulNonneg(-d - 1, n); }
  }

  /** Euclidean division by a positive divisor is unique. */
  lemma DivModUnique(a: int, n: int, q: int, r: int)
    requires n > 0 && 0 <= r < n && a == q * n + r
    ensures a / n == q && a % n == r
  {
    var q', r' := a / n, a % n;
    assert a == q' * n + r';
    assert (q - q') * n == r' - r;
    MulMonotone(q - q', n);
  }
}
