/** The text maps of mapper.py: one memory gauge and one core gauge per
    node of the `sinfo -o "%n %e %m %t %c %C"` listing, and the sorted
    report `mapper_main` prints. The listing is passed in as text. */
module Mapper {
  import opened PyText
  import opened PyNum
  import opened PyCollections
  import opened Scaling

  /** The non-empty strings of `lines`, in order. */
  function NonEmpty(lines: seq<string>): seq<string>
  {
    if lines == [] then []
    else NonEmpty(lines[..|lines| - 1]) + (if lines[|lines| - 1] != "" then [lines[|lines| - 1]] else [])
  }

  /** `NonEmpty` keeps exactly the non-empty lines; `NonEmptyConcat` shows
      it keeps their order and repetitions. */
  lemma {:induction false} NonEmptySpec(lines: seq<string>)
    ensures forall l :: l in NonEmpty(lines) <==> l in lines && l != ""
    ensures |NonEmpty(lines)| <= |lines|
    ensures (forall i :: 0 <= i < |lines| ==> lines[i] != "") ==> NonEmpty(lines) == lines
  {
    if lines != [] {
      var n := |lines| - 1;
      NonEmptySpec(lines[..n]);
      assert lines == lines[..n] + [lines[n]];
      forall l ensures l in lines <==> l in lines[..n] || l == lines[n] { }
    }
  }

  /** The filter over a concatenation is the filter of each part, in
      order, so kept lines keep their order and their repetitions. */
  lemma {:induction false} NonEmptyConcat(a: seq<string>, b: seq<string>)
    ensures NonEmpty(a + b) == NonEmpty(a) + NonEmpty(b)
    decreases |b|
  {
    if b == [] {
      assert a + b == a;
    } else {
      var n := |b| - 1;
      var c := a + b;
      assert c[..|c| - 1] == a + b[..n];
      assert c[|c| - 1] == b[n];
      NonEmptyConcat(a, b[..n]);
      var last := if b[n] != "" then [b[n]] else [];
      assert NonEmpty(a) + NonEmpty(b[..n]) + last == NonEmpty(a) + (NonEmpty(b[..n]) + last);
    }
  }

  /** One line is kept exactly when it is not empty. */
  lemma NonEmptySingle(l: string)
    ensures NonEmpty([l]) == if l != "" then [l] else []
  {
    assert [l][..0] == [];
  }

  /** `( _ for _ in stdout.split('\n')[1:] if _ )`: the lines of the
      listing after its header, empty ones skipped. */
  function SinfoLines(out: string): seq<string>
  {
    NonEmpty(SplitOn(out, "\n")[1..])
  }

  /** `scaling_values`: the memory gauge's width for each node size. */
  const ScalingValues: map<int, int> := map[384000 := 25, 768000 := 50, 1536000 := 100]

  /** The two entries `draw_map` appends for one line
      `node free total status true_cores a/i/o/t`: the node with its memory
      gauge, and the node with its core gauge. */
  datatype Entries = Entries(memory: string, cores: string)

  /** The memory entry of one line (mapper.py:73-75): `int(total) -
      int(free)` of `total` on the gauge width of the node's size, raising
      `ValueError` on a non-integer and `KeyError` on any other size. */
  function MemoryEntry(node: string, free: string, total: string): Result<string>
  {
    match (ParseInt(total), ParseInt(free))
    case (Some(t), Some(f)) =>
      if t !in ScalingValues then Err(KeyError)
      else
        var bar :- Row(Int(t - f), Text(total), Int(ScalingValues[t]), "X", "_", ("[", "]"));
        Ok(node + " " + bar)
    case _ => Err(ValueError)
  }

  /** The core entry of one line (mapper.py:72, 76): the second field of
      `a/i/o/t` out of `true_cores` on the default gauge, raising
      `IndexError` when there is no second field. */
  function CoreEntry(node: string, trueCores: string, cores: string): Result<string>
  {
    var quad := SplitOn(cores, "/");
    if |quad| < 2 then Err(IndexError)
    else
      var bar :- Gauge(Text(quad[1]), Text(trueCores));
      Ok(node + " " + bar)
  }

  /** The body of the loop of `draw_map` once `line.split()` has given its
      six fields: the memory entry first, so its errors come first. */
  function MapFields(node: string, free: string, total: string, trueCores: string, cores: string): Result<Entries>
  {
    var memory :- MemoryEntry(node, free, total);
    var cores :- CoreEntry(node, trueCores, cores);
    Ok(Entries(memory, cores))
  }

  /** One line of the listing: unpacking `line.split()` into six names
      raises `ValueError` unless there are exactly six fields. */
  function MapLine(line: string): Result<Entries>
  {
    var ws := Words(line);
    if |ws| != 6 then Err(ValueError) else MapFields(ws[0], ws[1], ws[2], ws[4], ws[5])
  }

  function Memories(es: seq<Entries>): (r: seq<string>)
    ensures |r| == |es| && forall i :: 0 <= i < |es| ==> r[i] == es[i].memory
  {
    seq(|es|, i requires 0 <= i < |es| => es[i].memory)
  }

  function CoreEntries(es: seq<Entries>): (r: seq<string>)
    ensures |r| == |es| && forall i :: 0 <= i < |es| ==> r[i] == es[i].cores
  {
    seq(|es|, i requires 0 <= i < |es| => es[i].cores)
  }

  /** The two lists `draw_map` returns for `lines` (its `memory` and
      `cores` entries), or the error of the first line that raises. */
  function MapsOf(lines: seq<string>): Result<(seq<string>, seq<string>)>
  {
    var es :- Traverse(MapLine, lines);
    Ok((Memories(es), CoreEntries(es)))
  }

  lemma EntriesSnoc(es: seq<Entries>, e: Entries)
    ensures Memories(es + [e]) == Memories(es) + [e.memory]
    ensures CoreEntries(es + [e]) == CoreEntries(es) + [e.cores]
  {
  }

  /** `draw_map`: one memory entry and one core entry per listed node, in
      the order of the listing. */
  method DrawMap(out: string) returns (r: Result<(seq<string>, seq<string>)>)
    ensures r == MapsOf(SinfoLines(out))
  {
    r := DrawLines(SinfoLines(out));
  }

  /** The loop of `draw_map` over the listing's lines. */
  method DrawLines(lines: seq<string>) returns (r: Result<(seq<string>, seq<string>)>)
    ensures r == MapsOf(lines)
  {
    var memoryMap: seq<string> := [];
    var coreMap: seq<string> := [];
    ghost var es: seq<Entries> := [];
    for i := 0 to |lines|
      invariant Traverse(MapLine, lines[..i]) == Ok(es)
      invariant memoryMap == Memories(es) && coreMap == CoreEntries(es)
    {
      var e := MapLine(lines[i]);
      if e.Err? {
        TraverseStops(MapLine, lines, i);
        return Err(e.exc);
      }
      TraverseStep(MapLine, lines, i, es);
      EntriesSnoc(es, e.value);
      es := es + [e.value];
      memoryMap := memoryMap + [e.value.memory];
      coreMap := coreMap + [e.value.cores];
    }
    assert lines[..|lines|] == lines;
    return Ok((memoryMap, coreMap));
  }

  /** The maps exist exactly when every line draws; then entry `i` of each
      map comes from line `i`. Otherwise the error is that of a line that
      raises, and of the first one. */
  lemma MapsSpec(lines: seq<string>)
    ensures MapsOf(lines).Ok? <==> forall i :: 0 <= i < |lines| ==> MapLine(lines[i]).Ok?
    ensures MapsOf(lines).Ok? ==>
              && |MapsOf(lines).value.0| == |lines| && |MapsOf(lines).value.1| == |lines|
              && forall i :: 0 <= i < |lines| ==>
                   MapsOf(lines).value.0[i] == MapLine(lines[i]).value.memory
                   && MapsOf(lines).value.1[i] == MapLine(lines[i]).value.cores
    ensures forall k :: 0 <= k < |lines| && MapLine(lines[k]).Err? && (forall i :: 0 <= i < k ==> MapLine(lines[i]).Ok?)
              ==> MapsOf(lines) == Err(MapLine(lines[k]).exc)
  {
    TraverseSpec(MapLine, lines);
    forall k | 0 <= k < |lines| && MapLine(lines[k]).Err? && (forall i :: 0 <= i < k ==> MapLine(lines[i]).Ok?)
      ensures MapsOf(lines) == Err(MapLine(lines[k]).exc)
    {
      TraverseFirstErr(MapLine, lines, k);
    }
  }

  /** `scaling_values[int(total)]`: only the three node sizes have a gauge
      width; any other total raises `KeyError`, and a non-integer size or
      free amount raises `ValueError`. */
  lemma ScaleTable(node: string, free: string, total: string)
    ensures ParseInt(total).None? || ParseInt(free).None? ==> MemoryEntry(node, free, total) == Err(ValueError)
    ensures ParseInt(total).Some? && ParseInt(free).Some? && ParseInt(total).value !in {384000, 768000, 1536000}
            ==> MemoryEntry(node, free, total) == Err(KeyError)
  {
  }

  /** A line draws exactly when both of its entries do, the memory entry's
      error coming first. */
  lemma MapFieldsSpec(node: string, free: string, total: string, trueCores: string, cores: string)
    ensures MapFields(node, free, total, trueCores, cores).Ok?
            <==> MemoryEntry(node, free, total).Ok? && CoreEntry(node, trueCores, cores).Ok?
    ensures MapFields(node, free, total, trueCores, cores).Ok? ==>
              MapFields(node, free, total, trueCores, cores).value
              == Entries(MemoryEntry(node, free, total).value, CoreEntry(node, trueCores, cores).value)
    ensures MemoryEntry(node, free, total).Err? ==>
              MapFields(node, free, total, trueCores, cores) == Err(MemoryEntry(node, free, total).exc)
    ensures MemoryEntry(node, free, total).Ok? && CoreEntry(node, trueCores, cores).Err? ==>
              MapFields(node, free, total, trueCores, cores) == Err(CoreEntry(node, trueCores, cores).exc)
  {
  }

  lemma LineFields(line: string)
    ensures |Words(line)| != 6 ==> MapLine(line) == Err(ValueError)
    ensures |Words(line)| == 6 ==>
              var ws := Words(line);
              MapLine(line) == MapFields(ws[0], ws[1], ws[2], ws[4], ws[5])
  {
  }

  /** A memory entry that draws is the node and a default-glyph gauge
      `scale` slots wide for the node's size, filling `total - free` of
      `total`. */
  lemma MemoryShape(node: string, free: string, total: string)
    requires MemoryEntry(node, free, total).Ok?
    ensures ParseInt(free).Some? && ParseInt(total).Some?
    ensures var f := ParseInt(free).value;
            var t := ParseInt(total).value;
            && t in ScalingValues && 0 <= t - f
            && var s := ScalingValues[t];
               MemoryEntry(node, free, total).value == node + " " + Bar(Fill(t - f, t, s), s - Fill(t - f, t, s))
  {
    MemorySteps(node, free, total);
    var f := ParseInt(free).value;
    var t := ParseInt(total).value;
    var s := ScalingValues[t];
    ScaleBelowSize(t);
    DefaultGlyphs(Int(t - f), Text(total), s, t - f, t);
  }

  /** Every gauge width is positive and smaller than its node size, so
      the memory gauge is always rescaled. */
  lemma ScaleBelowSize(t: int)
    requires t in ScalingValues
    ensures 0 < ScalingValues[t] < t
  {
    assert t in {384000, 768000, 1536000};
  }

  /** The stages of `MemoryEntry` for a line that draws. */
  lemma MemorySteps(node: string, free: string, total: string)
    requires MemoryEntry(node, free, total).Ok?
    ensures ParseInt(free).Some? && ParseInt(total).Some? && ParseInt(total).value in ScalingValues
    ensures var f := ParseInt(free).value;
            var t := ParseInt(total).value;
            var row := Row(Int(t - f), Text(total), Int(ScalingValues[t]), "X", "_", ("[", "]"));
            row.Ok? && MemoryEntry(node, free, total).value == node + " " + row.value
  {
  }

  /** The converse: integers whose size has a gauge width and whose used
      amount is not negative always draw. */
  lemma MemoryDraws(node: string, free: string, total: string)
    requires ParseInt(free).Some? && ParseInt(total).Some?
    requires ParseInt(total).value in ScalingValues && ParseInt(free).value <= ParseInt(total).value
    ensures MemoryEntry(node, free, total).Ok?
  {
    var (f, t) := (ParseInt(free).value, ParseInt(total).value);
    ScaleBelowSize(t);
    RowErrors(Int(t - f), Text(total), Int(ScalingValues[t]), "X", "_", ("[", "]"));
  }

  /** A core entry that draws is the node and a default-glyph gauge that
      fills the second (idle) field of `a/i/o/t` out of `true_cores`, on
      `min(80, true_cores)` slots. */
  lemma CoreShape(node: string, trueCores: string, cores: string)
    requires CoreEntry(node, trueCores, cores).Ok?
    ensures var q := SplitOn(cores, "/");
            && |q| >= 2 && ParseInt(q[1]).Some? && ParseInt(trueCores).Some?
            && var (idle, c) := (ParseInt(q[1]).value, ParseInt(trueCores).value);
               && 0 <= idle && 0 < c
               && CoreEntry(node, trueCores, cores).value
                  == node + " " + Bar(Fill(idle, c, DefaultScale), Min(DefaultScale, c) - Fill(idle, c, DefaultScale))
  {
    var q := SplitOn(cores, "/");
    CoreSteps(node, trueCores, cores);
    DefaultGlyphs(Text(q[1]), Text(trueCores), DefaultScale, ParseInt(q[1]).value, ParseInt(trueCores).value);
  }

  /** The stages of `CoreEntry` for a line that draws. */
  lemma CoreSteps(node: string, trueCores: string, cores: string)
    requires CoreEntry(node, trueCores, cores).Ok?
    ensures var q := SplitOn(cores, "/");
            && |q| >= 2 && ParseInt(q[1]).Some? && ParseInt(trueCores).Some?
            && var row := Gauge(Text(q[1]), Text(trueCores));
               row.Ok? && CoreEntry(node, trueCores, cores).value == node + " " + row.value
  {
    var q := SplitOn(cores, "/");
    RowErrors(Text(q[1]), Text(trueCores), Int(DefaultScale), "X", "_", ("[", "]"));
  }

  /** The converse: a second field that is a count and a positive core
      count always draw. */
  lemma CoreDraws(node: string, trueCores: string, cores: string)
    requires |SplitOn(cores, "/")| >= 2
    requires ParseInt(SplitOn(cores, "/")[1]).Some? && ParseInt(trueCores).Some?
    requires ParseInt(SplitOn(cores, "/")[1]).value >= 0 && ParseInt(trueCores).value > 0
    ensures CoreEntry(node, trueCores, cores).Ok?
  {
    var q := SplitOn(cores, "/");
    RowErrors(Text(q[1]), Text(trueCores), Int(DefaultScale), "X", "_", ("[", "]"));
  }

  /** The sample line `spdr12 424105 768000 up 52 12/40/0/52` of
      `draw_map`, for any spelling of its numbers: 343895 of 768000 on
      the 50-slot gauge fills 22 slots, and 40 idle of 52 cores on the
      default 80-slot gauge fills 40 of 52. */
  lemma SampleLine(node: string, free: string, total: string, trueCores: string, cores: string)
    requires ParseInt(free) == Some(424105) && ParseInt(total) == Some(768000) && ParseInt(trueCores) == Some(52)
    requires |SplitOn(cores, "/")| >= 2 && ParseInt(SplitOn(cores, "/")[1]) == Some(40)
    ensures MapFields(node, free, total, trueCores, cores) == Ok(Entries(node + " " + Bar(22, 28), node + " " + Bar(40, 12)))
  {
    MapFieldsSpec(node, free, total, trueCores, cores);
    assert MemoryEntry(node, free, total) == Ok(node + " " + Bar(22, 28)) by {
      MemoryDraws(node, free, total);
      MemoryShape(node, free, total);
      assert ScalingValues[768000] == 50;
      assert Fill(343895, 768000, 50) == 22 by { assert RoundHalfEven(343895 * 50, 768000) == 22; }
    }
    assert CoreEntry(node, trueCores, cores) == Ok(node + " " + Bar(40, 12)) by {
      CoreDraws(node, trueCores, cores);
      CoreShape(node, trueCores, cores);
      assert Fill(40, 52, DefaultScale) == 40;
    }
  }

  /** With one-character glyphs the memory entry is always as wide as the
      node name, a space, the gauge width for its size and two brackets. */
  lemma MemoryWidth(node: string, free: string, total: string)
    requires MemoryEntry(node, free, total).Ok?
    ensures ParseInt(total).Some? && ParseInt(total).value in ScalingValues
    ensures |MemoryEntry(node, free, total).value| == |node| + 1 + ScalingValues[ParseInt(total).value] + 2
  {
    MemoryShape(node, free, total);
  }

  /** One block of `mapper_main`'s report: the entries of one map, sorted
      and joined by newlines. */
  function MapReport(entries: seq<string>): string
  {
    Join(Sort(entries), "\n")
  }

  /** The block's lines are the entries in sorted order, each entry once
      for each time it was drawn. */
  lemma ReportLines(entries: seq<string>)
    requires entries != [] && forall i :: 0 <= i < |entries| ==> NoNewline(entries[i])
    ensures SplitOn(MapReport(entries), "\n") == Sort(entries)
    ensures Sorted(SplitOn(MapReport(entries), "\n"))
    ensures multiset(SplitOn(MapReport(entries), "\n")) == multiset(entries)
  {
    var r := Sort(entries);
    assert r != [] by { assert |multiset(r)| == |multiset(entries)| > 0; }
    forall i, j | 0 <= i < |r| && 0 <= j < |r[i]| ensures r[i][j] != '\n' {
      assert r[i] in multiset(entries);
      var k :| 0 <= k < |entries| && entries[k] == r[i];
      assert NoNewline(entries[k]);
    }
    SplitOfJoin(r, '\n');
  }

  /** A memory entry that draws is the node name and its gauge, two words
      on one line. */
  lemma MemoryWords(node: string, free: string, total: string)
    requires node != [] && NoSpace(node) && MemoryEntry(node, free, total).Ok?
    ensures var m := MemoryEntry(node, free, total).value;
            |Words(m)| == 2 && Words(m)[0] == node && NoNewline(m)
  {
    MemorySteps(node, free, total);
    var t := ParseInt(total).value;
    var row := Row(Int(t - ParseInt(free).value), Text(total), Int(ScalingValues[t]), "X", "_", ("[", "]"));
    DefaultRowWord(Int(t - ParseInt(free).value), Text(total), ScalingValues[t]);
    TwoWords(node, row.value);
  }

  /** A core entry that draws is the node name and its gauge, two words on
      one line. */
  lemma CoreWords(node: string, trueCores: string, cores: string)
    requires node != [] && NoSpace(node) && CoreEntry(node, trueCores, cores).Ok?
    ensures var c := CoreEntry(node, trueCores, cores).value;
            |Words(c)| == 2 && Words(c)[0] == node && NoNewline(c)
  {
    CoreSteps(node, trueCores, cores);
    var q := SplitOn(cores, "/");
    DefaultRowWord(Text(q[1]), Text(trueCores), DefaultScale);
    TwoWords(node, Gauge(Text(q[1]), Text(trueCores)).value);
  }

  /** A word, a space and a word are two words on one line. */
  lemma TwoWords(a: string, b: string)
    requires a != [] && NoSpace(a) && b != [] && NoSpace(b)
    ensures Words(a + " " + b) == [a, b]
    ensures NoNewline(a + " " + b)
  {
    WordsPair(a, b);
    PairOneLine(a, b);
  }

  lemma PairOneLine(a: string, b: string)
    requires NoSpace(a) && NoSpace(b)
    ensures NoNewline(a + " " + b)
  {
    var s := a + " " + b;
    forall i | 0 <= i < |s| ensures s[i] != '\n' {
      if i < |a| { assert s[i] == a[i]; } else if i > |a| { assert s[i] == b[i - |a| - 1]; }
    }
  }

  /** The entries of a line that draws hold no newline, and each is the
      node name followed by one gauge. */
  lemma LineOneLine(line: string)
    requires MapLine(line).Ok?
    ensures var e := MapLine(line).value;
            && NoNewline(e.memory) && NoNewline(e.cores)
            && |Words(e.memory)| == 2 && Words(e.memory)[0] == Words(line)[0]
            && |Words(e.cores)| == 2 && Words(e.cores)[0] == Words(line)[0]
  {
    LineFields(line);
    var ws := Words(line);
    WordsAreWords(line);
    MapFieldsSpec(ws[0], ws[1], ws[2], ws[4], ws[5]);
    MemoryWords(ws[0], ws[1], ws[2]);
    CoreWords(ws[0], ws[4], ws[5]);
  }

  /** `mapper_main`: each map printed as one block whose lines are its
      entries in sorted order. */
  lemma MainReport(out: string)
    requires MapsOf(SinfoLines(out)).Ok? && SinfoLines(out) != []
    ensures var (memory, cores) := MapsOf(SinfoLines(out)).value;
            && SplitOn(MapReport(memory), "\n") == Sort(memory)
            && SplitOn(MapReport(cores), "\n") == Sort(cores)
  {
    var lines := SinfoLines(out);
    MapsSpec(lines);
    var (memory, cores) := MapsOf(lines).value;
    forall i | 0 <= i < |lines| ensures NoNewline(memory[i]) && NoNewline(cores[i]) {
      LineOneLine(lines[i]);
    }
    ReportLines(memory);
    ReportLines(cores);
  }
}
