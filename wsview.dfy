/** The workstation viewer of wsview.py: three parsers for probe output
    (`mpstat`, `/proc/meminfo`, `/proc/loadavg`), the scratch log every
    probing child appends `(host, kind, record)` triples to, and the fold
    of that log into a host -> kind -> record tree. The ssh probes are
    replaced by their output text, passed in as parameters. */
module WsView {
  import opened PyText
  import opened PyNum
  import opened PyCollections

  /** What one probe yields: the `%` columns of mpstat, the meminfo
      fields, or the five loadavg fields. */
  datatype Record =
    | Stats(pct: map<string, string>)
    | Mem(fields: map<string, int>)
    | Load(avg: map<string, PyFloat>)

  /** One entry of the scratch log: `[host, kind, record]`. */
  datatype Triple = Triple(host: string, kind: string, rec: Record)

  /** The value stored for a meminfo field whose number does not parse. */
  const Sentinel := -1729

  const EX_OK := 0
  const EX_SOFTWARE := 70

  // ---------------------------------------------------------------- meminfo

  /** A meminfo line unpacks into `label, value, _`. */
  predicate MeminfoLine(line: string) { |Words(line)| == 3 }

  predicate AllMeminfoLines(lines: seq<string>) {
    forall i :: 0 <= i < |lines| ==> MeminfoLine(lines[i])
  }

  /** The key of a line: its label without the last character, lowercased. */
  function MemKey(line: string): string
    requires MeminfoLine(line)
  {
    WordsNonEmpty(line);
    Lower(DropLast(Words(line)[0]))
  }

  /** The value of a line: its second token as an integer, or the sentinel. */
  function MemValue(line: string): int
    requires MeminfoLine(line)
  {
    match ParseInt(Words(line)[1])
    case Some(n) => n
    case None => Sentinel
  }

  function MemKeys(lines: seq<string>): (r: seq<string>)
    requires AllMeminfoLines(lines)
    ensures |r| == |lines| && forall i :: 0 <= i < |lines| ==> r[i] == MemKey(lines[i])
  {
    if lines == [] then [] else MemKeys(lines[..|lines| - 1]) + [MemKey(lines[|lines| - 1])]
  }

  function MemValues(lines: seq<string>): (r: seq<int>)
    requires AllMeminfoLines(lines)
    ensures |r| == |lines| && forall i :: 0 <= i < |lines| ==> r[i] == MemValue(lines[i])
  {
    if lines == [] then [] else MemValues(lines[..|lines| - 1]) + [MemValue(lines[|lines| - 1])]
  }

  /** The dict the loop of `parse_meminfo` has built after `lines`, or the
      `ValueError` of the first line that does not unpack. */
  function MeminfoOf(lines: seq<string>): Result<map<string, int>>
  {
    if lines == [] then Ok(map[])
    else
      var d :- MeminfoOf(lines[..|lines| - 1]);
      var line := lines[|lines| - 1];
      if MeminfoLine(line) then Ok(d[MemKey(line) := MemValue(line)]) else Err(ValueError)
  }

  /** What `parse_meminfo(s)` returns. */
  function Meminfo(s: string): Result<map<string, int>>
  {
    MeminfoOf(SplitOn(s, "\n"))
  }

  /** `parse_meminfo`: the loop filling `d` one line at a time. */
  method ParseMeminfo(s: string) returns (r: Result<map<string, int>>)
    ensures r == Meminfo(s)
  {
    var lines := SplitOn(s, "\n");
    var d: map<string, int> := map[];
    var i := 0;
    while i < |lines|
      invariant 0 <= i <= |lines|
      invariant MeminfoOf(lines[..i]) == Ok(d)
    {
      assert lines[..i + 1][..i] == lines[..i];
      var line := lines[i];
      if |Words(line)| != 3 {
        MeminfoErrSticks(lines, i + 1);
        return Err(ValueError);
      }
      d := d[MemKey(line) := MemValue(line)];
      i := i + 1;
    }
    assert lines[..i] == lines;
    return Ok(d);
  }

  /** Once a line fails, every longer prefix fails too. */
  lemma {:induction false} MeminfoErrSticks(lines: seq<string>, k: nat)
    requires k <= |lines| && MeminfoOf(lines[..k]) == Err(ValueError)
    ensures MeminfoOf(lines) == Err(ValueError)
    decreases |lines| - k
  {
    if k < |lines| {
      assert lines[..k + 1][..k] == lines[..k];
      MeminfoErrSticks(lines, k + 1);
    } else {
      assert lines[..k] == lines;
    }
  }

  /** The line-by-line dict exists exactly when every line unpacks;
      otherwise the error is `ValueError`. */
  lemma {:induction false} MeminfoOfOk(lines: seq<string>)
    ensures MeminfoOf(lines).Ok? <==> AllMeminfoLines(lines)
    ensures MeminfoOf(lines).Err? ==> MeminfoOf(lines) == Err(ValueError)
  {
    if lines != [] {
      var n := |lines| - 1;
      var init := lines[..n];
      MeminfoOfOk(init);
      if AllMeminfoLines(lines) {
        forall j | 0 <= j < n ensures MeminfoLine(init[j]) { assert init[j] == lines[j]; }
        assert MeminfoLine(lines[n]);
        assert MeminfoOf(init).Ok?;
        assert MeminfoOf(lines).Ok?;
      } else if AllMeminfoLines(init) {
        forall j | 0 <= j < n ensures MeminfoLine(lines[j]) { assert init[j] == lines[j]; }
        var j :| 0 <= j < |lines| && !MeminfoLine(lines[j]);
        assert j == n;
        assert MeminfoOf(lines) == Err(ValueError);
      } else {
        var j :| 0 <= j < n && !MeminfoLine(init[j]);
        assert init[j] == lines[j];
        assert MeminfoOf(init) == Err(ValueError);
        assert MeminfoOf(lines) == Err(ValueError);
      }
    }
  }

  /** The line-by-line dict is the one assigned from all keys and values at
      once. */
  lemma {:induction false} MeminfoOfAssign(lines: seq<string>)
    requires AllMeminfoLines(lines)
    ensures MeminfoOf(lines) == Ok(Assign(MemKeys(lines), MemValues(lines)))
  {
    if lines != [] {
      var n := |lines| - 1;
      var init := lines[..n];
      forall j | 0 <= j < n ensures MeminfoLine(init[j]) { assert init[j] == lines[j]; }
      MeminfoOfAssign(init);
      var ks, vs := MemKeys(lines), MemValues(lines);
      assert ks[..n] == MemKeys(init) && vs[..n] == MemValues(init);
    }
  }

  /** `parse_meminfo` raises unless every line has exactly three tokens. */
  lemma MeminfoRejects(s: string)
    ensures Meminfo(s) == Err(ValueError) ==> exists i :: 0 <= i < |SplitOn(s, "\n")| && |Words(SplitOn(s, "\n")[i])| != 3
    ensures (exists i :: 0 <= i < |SplitOn(s, "\n")| && |Words(SplitOn(s, "\n")[i])| != 3) ==> Meminfo(s) == Err(ValueError)
    ensures Meminfo(s).Ok? || Meminfo(s) == Err(ValueError)
  {
    MeminfoOfOk(SplitOn(s, "\n"));
  }

  /** Keys and values of a parsed meminfo: a key is present iff some line
      carries it, and it holds the value of the last line carrying it (the
      integer or the sentinel, never an abort). `MemKeys(lines)[i]` is the
      key of line `i` and `MemValues(lines)[i]` its value. */
  lemma MeminfoEntries(lines: seq<string>)
    requires AllMeminfoLines(lines)
    ensures MeminfoOf(lines).Ok?
    ensures var (d, ks, vs) := (MeminfoOf(lines).value, MemKeys(lines), MemValues(lines));
            && (forall k :: k in d <==> k in ks)
            && (forall i :: 0 <= i < |ks| && (forall j :: i < j < |ks| ==> ks[j] != ks[i]) ==> d[ks[i]] == vs[i])
  {
    MeminfoOfAssign(lines);
    AssignSpec(MemKeys(lines), MemValues(lines));
  }

  /** The value of a line is its integer when the token parses and the
      sentinel -1729 when it does not. */
  lemma MemValueSentinel(line: string)
    requires MeminfoLine(line)
    ensures ParseInt(Words(line)[1]).None? <==> MemValue(line) == Sentinel && ParseInt(Words(line)[1]) != Some(Sentinel)
    ensures ParseInt(Words(line)[1]).Some? ==> MemValue(line) == ParseInt(Words(line)[1]).value
  {
  }

  /** A text ending in a newline splits into pieces the last of which is
      empty. */
  lemma {:induction false} SplitTrailing(s: string, c: char)
    ensures var r := SplitOn(s + [c], [c]); |r| >= 2 && r[|r| - 1] == ""
    decreases |s|
  {
    var t := s + [c];
    if s == [] {
      assert t[..1] == [c] && t[1..] == [];
    } else if s[0] == c {
      assert t[..1] == [c];
      assert t[1..] == s[1..] + [c];
      SplitTrailing(s[1..], c);
    } else {
      assert t[..1] == [s[0]];
      assert t[1..] == s[1..] + [c];
      SplitTrailing(s[1..], c);
    }
  }

  /** Empty text, and any text ending in a newline, leave an empty line,
      which does not unpack into three tokens: `parse_meminfo` raises. */
  lemma MeminfoEmptyLine(s: string)
    ensures Meminfo("") == Err(ValueError)
    ensures Meminfo(s + "\n") == Err(ValueError)
  {
    assert Words("") == [];
    assert SplitOn("", "\n") == [""];
    SplitTrailing(s, '\n');
    var lines := SplitOn(s + "\n", "\n");
    assert !MeminfoLine(lines[|lines| - 1]);
    MeminfoOfOk(lines);
  }

  /** A line of three space-separated words unpacks; its key comes from
      the first word and its value from the second. */
  lemma MemLineOf(ws: seq<string>)
    requires |ws| == 3 && forall i :: 0 <= i < 3 ==> ws[i] != [] && NoSpace(ws[i])
    ensures var line := Join(ws, " ");
            && MeminfoLine(line)
            && MemKey(line) == Lower(DropLast(ws[0]))
            && (ParseInt(ws[1]).Some? ==> MemValue(line) == ParseInt(ws[1]).value)
            && (ParseInt(ws[1]).None? ==> MemValue(line) == Sentinel)
  {
    WordsOfJoin(ws);
    assert Words(Join(ws, " "))[1] == ws[1];
  }

  // ---------------------------------------------------------------- loadavg

  /** The keys of a loadavg record, in assignment order. */
  const LoadKeys: seq<string> := ["minute_1", "minute_5", "minute_15", "running_threads", "total_threads"]

  /** The five value texts of `parse_loadavg` in key order: five tokens,
      the fourth being `running/total`. */
  function LoadFields(s: string): (r: Result<seq<string>>)
    ensures r.Ok? ==> |r.value| == 5
  {
    var tokens := Words(s);
    if |tokens| != 5 then Err(ValueError)
    else
      var threads := SplitOn(tokens[3], "/");
      if |threads| != 2 then Err(ValueError)
      else Ok(tokens[..3] + threads)
  }

  /** `float(v)`, raising `ValueError` on a text that is not a float. */
  function FloatOf(text: string): Result<PyFloat>
  {
    match ParseFloat(text)
    case None => Err(ValueError)
    case Some(f) => Ok(f)
  }

  /** `float(v)` of each text in turn; the first failure raises. */
  function Floats(texts: seq<string>): (r: Result<seq<PyFloat>>)
    ensures r.Ok? ==> |r.value| == |texts|
  {
    Traverse(FloatOf, texts)
  }

  /** The floats exist exactly when every text is a float, and then they are
      the texts' floats in order; otherwise the error is `ValueError`. */
  lemma FloatsSpec(texts: seq<string>)
    ensures Floats(texts).Ok? <==> forall i :: 0 <= i < |texts| ==> ParseFloat(texts[i]).Some?
    ensures Floats(texts).Ok? ==> |Floats(texts).value| == |texts|
    ensures Floats(texts).Ok? ==> forall i :: 0 <= i < |texts| ==> Floats(texts).value[i] == ParseFloat(texts[i]).value
    ensures Floats(texts).Err? ==> Floats(texts) == Err(ValueError)
  {
    TraverseSpec(FloatOf, texts);
  }

  /** What `parse_loadavg(s)` returns. */
  function Loadavg(s: string): Result<map<string, PyFloat>>
  {
    var texts :- LoadFields(s);
    LoadRecordOf(texts)
  }

  /** The record of five field texts: each key holds the float of its text. */
  function LoadRecordOf(texts: seq<string>): Result<map<string, PyFloat>>
    requires |texts| == 5
  {
    var fs :- Floats(texts);
    Ok(Assign(LoadKeys, fs))
  }

  lemma LoadKeysDistinct()
    ensures forall i, j :: 0 <= i < j < |LoadKeys| ==> LoadKeys[i] != LoadKeys[j]
  {
    assert LoadKeys[0][7] != LoadKeys[1][7];
    assert LoadKeys[1][0] != LoadKeys[3][0];
  }

  /** `parse_loadavg`: unpack into the five fields of `d`, then rewrite
      every field of `d` in place with its `float`. */
  method ParseLoadavg(s: string) returns (r: Result<map<string, PyFloat>>)
    ensures r == Loadavg(s)
  {
    LoadavgSteps(s);
    var tokens := Words(s);
    if |tokens| != 5 {
      return Err(ValueError);
    }
    var threads := SplitOn(tokens[3], "/");
    if |threads| != 2 {
      return Err(ValueError);
    }
    var d := Assign(LoadKeys, tokens[..3] + threads);
    r := FloatFields(d, tokens[..3] + threads);
  }

  /** The two stages of `parse_loadavg`: unpacking, then the floats. */
  lemma LoadavgSteps(s: string)
    ensures |Words(s)| != 5 ==> Loadavg(s) == Err(ValueError)
    ensures |Words(s)| == 5 && |SplitOn(Words(s)[3], "/")| != 2 ==> Loadavg(s) == Err(ValueError)
    ensures |Words(s)| == 5 && |SplitOn(Words(s)[3], "/")| == 2 ==>
              Loadavg(s) == LoadRecordOf(Words(s)[..3] + SplitOn(Words(s)[3], "/"))
  {
  }

  /** The loop of `parse_loadavg`: every field of the unpacked dict, in key
      order, replaced by its `float`; the first text that is not a float
      raises. */
  method FloatFields(raw: map<string, string>, ghost texts: seq<string>) returns (r: Result<map<string, PyFloat>>)
    requires |texts| == 5 && raw == Assign(LoadKeys, texts)
    ensures r == LoadRecordOf(texts)
  {
    var d: map<string, PyFloat> := map[];
    ghost var fs: seq<PyFloat> := [];
    for i := 0 to 5
      invariant Traverse(FloatOf, texts[..i]) == Ok(fs)
      invariant |fs| == i
      invariant d == Assign(LoadKeys[..i], fs)
    {
      LoadRaw(texts, i);
      var f := ParseFloat(raw[LoadKeys[i]]);
      if f.None? {
        TraverseStops(FloatOf, texts, i);
        return Err(ValueError);
      }
      TraverseStep(FloatOf, texts, i, fs);
      AssignStep(LoadKeys, fs, i, f.value);
      d := d[LoadKeys[i] := f.value];
      fs := fs + [f.value];
    }
    assert texts[..5] == texts && LoadKeys[..5] == LoadKeys;
    return Ok(d);
  }

  /** The text `parse_loadavg` stored under the `i`-th key is the `i`-th
      field. */
  lemma LoadRaw(texts: seq<string>, i: nat)
    requires |texts| == 5 && i < 5
    ensures LoadKeys[i] in Assign(LoadKeys, texts) && Assign(LoadKeys, texts)[LoadKeys[i]] == texts[i]
  {
    LoadKeysDistinct();
    AssignLast(LoadKeys, texts, i);
  }

  /** The five texts are the first three tokens and the two halves of the
      fourth around its one `/`; the fifth token is read and dropped.
      Anything else raises `ValueError`. */
  lemma LoadFieldsSpec(s: string)
    ensures LoadFields(s).Ok? <==> |Words(s)| == 5 && |SplitOn(Words(s)[3], "/")| == 2
    ensures LoadFields(s).Err? ==> LoadFields(s) == Err(ValueError)
    ensures LoadFields(s).Ok? ==>
              && LoadFields(s).value[..3] == Words(s)[..3]
              && LoadFields(s).value[3] + "/" + LoadFields(s).value[4] == Words(s)[3]
  {
    if LoadFields(s).Ok? {
      var t := Words(s)[3];
      var f := LoadFields(s).value;
      SplitJoin(t, "/");
      var th := SplitOn(t, "/");
      assert f[3..] == th;
      assert Join(th, "/") == th[0] + "/" + Join(th[1..], "/");
    }
  }

  /** The record built from five field texts: defined exactly when every
      text is a float, and then its keys are the five loadavg keys, each
      holding the float of its own text. */
  lemma LoadRecord(texts: seq<string>)
    requires |texts| == 5
    ensures LoadRecordOf(texts).Ok? <==> forall i :: 0 <= i < 5 ==> ParseFloat(texts[i]).Some?
    ensures LoadRecordOf(texts).Err? ==> LoadRecordOf(texts) == Err(ValueError)
    ensures LoadRecordOf(texts).Ok? ==>
              var d := LoadRecordOf(texts).value;
              && d.Keys == set k | k in LoadKeys
              && forall i :: 0 <= i < 5 ==> LoadKeys[i] in d && d[LoadKeys[i]] == ParseFloat(texts[i]).value
  {
    FloatsSpec(texts);
    if Floats(texts).Ok? {
      var fs := Floats(texts).value;
      LoadKeysDistinct();
      AssignPositional(LoadKeys, fs);
      AssignKeys(LoadKeys, fs);
    }
  }

  /** `parse_loadavg` returns a record exactly when the text unpacks and its
      five field texts are floats, and raises `ValueError` otherwise; the
      record has exactly the five loadavg keys, each holding the float of
      its field. */
  lemma LoadavgShape(s: string)
    ensures Loadavg(s).Ok? <==> LoadFields(s).Ok? && forall i :: 0 <= i < 5 ==> ParseFloat(LoadFields(s).value[i]).Some?
    ensures Loadavg(s).Err? ==> Loadavg(s) == Err(ValueError)
    ensures Loadavg(s).Ok? ==>
              var d := Loadavg(s).value;
              && d.Keys == set k | k in LoadKeys
              && forall i :: 0 <= i < 5 ==> LoadKeys[i] in d && d[LoadKeys[i]] == ParseFloat(LoadFields(s).value[i]).value
  {
    LoadFieldsSpec(s);
    if LoadFields(s).Ok? {
      LoadRecord(LoadFields(s).value);
    }
  }

  // ----------------------------------------------------------------- mpstat

  /** Two `%` columns with the same name after the `%` are the same column. */
  lemma PctInjective()
    ensures forall a, b :: StartsWith(a, "%") && StartsWith(b, "%") && a[1..] == b[1..] ==> a == b
  {
    forall a, b | StartsWith(a, "%") && StartsWith(b, "%") && a[1..] == b[1..] ensures a == b {
      assert a == a[..1] + a[1..];
      assert b == b[..1] + b[1..];
    }
  }

  /** A `%` column is `%` followed by its name. */
  lemma PctSplit(k: string)
    requires StartsWith(k, "%")
    ensures k == "%" + k[1..]
  {
    assert k == k[..1] + k[1..];
  }

  /** `%` followed by a name is a `%` column with that name. */
  lemma PctJoin(k: string)
    ensures StartsWith("%" + k, "%") && ("%" + k)[1..] == k
  {
    assert ("%" + k)[..1] == "%";
  }

  /** The `%` columns of a header -> value dict, the `%` dropped. */
  function PctFields(z: map<string, string>): map<string, string>
  {
    PctInjective();
    map k | k in z && StartsWith(k, "%") :: k[1..] := z[k]
  }

  lemma PctMember(z: map<string, string>, k: string)
    requires "%" + k in z
    ensures k in PctFields(z)
  {
    var q := "%" + k;
    assert q[..1] == "%";
    assert q[1..] == k;
    assert q in z && StartsWith(q, "%");
  }

  lemma PctValue(z: map<string, string>, q: string)
    requires q in z && StartsWith(q, "%")
    ensures q[1..] in PctFields(z) && PctFields(z)[q[1..]] == z[q]
  {
    PctInjective();
  }

  /** A name is a key of the `%` columns iff `%` + name is a header of the
      dict, and it holds that header's value. */
  lemma PctFieldsSpec(z: map<string, string>)
    ensures forall k :: k in PctFields(z) <==> "%" + k in z
    ensures forall k :: k in PctFields(z) ==> PctFields(z)[k] == z["%" + k]
  {
    forall k | k in PctFields(z) ensures "%" + k in z && PctFields(z)[k] == z["%" + k] {
      var q :| q in z && StartsWith(q, "%") && q[1..] == k;
      PctSplit(q);
      PctValue(z, q);
    }
    forall k | "%" + k in z ensures k in PctFields(z) {
      PctMember(z, k);
    }
  }

  /** One more assignment to the zipped dict changes the `%` columns by at
      most the one entry. */
  lemma PctFieldsStep(z: map<string, string>, k: string, v: string)
    ensures PctFields(z[k := v]) == if StartsWith(k, "%") then PctFields(z)[k[1..] := v] else PctFields(z)
  {
    if StartsWith(k, "%") {
      PctStepPct(z, k, v);
    } else {
      PctStepOther(z, k, v);
    }
  }

  lemma PctStepPct(z: map<string, string>, k: string, v: string)
    requires StartsWith(k, "%")
    ensures PctFields(z[k := v]) == PctFields(z)[k[1..] := v]
  {
    var a, b := PctFields(z[k := v]), PctFields(z)[k[1..] := v];
    PctFieldsSpec(z);
    PctFieldsSpec(z[k := v]);
    PctSplit(k);
    forall q ensures q in a <==> q in b {
      PctJoin(q);
    }
    forall q | q in a ensures a[q] == b[q] {
      PctJoin(q);
    }
  }

  lemma PctStepOther(z: map<string, string>, k: string, v: string)
    requires !StartsWith(k, "%")
    ensures PctFields(z[k := v]) == PctFields(z)
  {
    var a, b := PctFields(z[k := v]), PctFields(z);
    PctFieldsSpec(z);
    PctFieldsSpec(z[k := v]);
    forall q ensures q in a <==> q in b {
      PctJoin(q);
    }
    forall q | q in a ensures a[q] == b[q] {
      PctJoin(q);
    }
  }

  /** What `parse_mpstat(s)` returns: exactly two lines, a header and a
      value row, zipped and filtered to the `%` columns. */
  function Mpstat(s: string): Result<map<string, string>>
  {
    var lines := SplitOn(s, "\n");
    if |lines| != 2 then Err(ValueError)
    else Ok(PctFields(ZipDict(Words(lines[0]), Words(lines[1]))))
  }

  /** `parse_mpstat`: split, zip, and copy the `%` columns into `d`. */
  method ParseMpstat(s: string) returns (r: Result<map<string, string>>)
    ensures r == Mpstat(s)
  {
    var lines := SplitOn(s, "\n");
    if |lines| != 2 {
      return Err(ValueError);
    }
    var keys, values := Words(lines[0]), Words(lines[1]);
    var n := Min(|keys|, |values|);
    var d: map<string, string> := map[];
    for i := 0 to n
      invariant d == PctFields(Assign(keys[..i], values[..i]))
    {
      AssignPrefixStep(keys, values, i);
      PctFieldsStep(Assign(keys[..i], values[..i]), keys[i], values[i]);
      if StartsWith(keys[i], "%") {
        d := d[keys[i][1..] := values[i]];
      }
    }
    return Ok(d);
  }

  /** The `%` columns of a zipped header row and value row: a name is
      present iff `%` + name is a header within the shorter row, and holds
      the value under the last such header. */
  lemma PctZip(ks: seq<string>, vs: seq<string>)
    ensures var (n, d) := (Min(|ks|, |vs|), PctFields(ZipDict(ks, vs)));
            && (forall k :: k in d <==> exists i :: 0 <= i < n && ks[i] == "%" + k)
            && (forall i :: 0 <= i < n && StartsWith(ks[i], "%") && (forall j :: i < j < n ==> ks[j] != ks[i])
                  ==> ks[i][1..] in d && d[ks[i][1..]] == vs[i])
  {
    var z := ZipDict(ks, vs);
    ZipDictSpec(ks, vs);
    PctFieldsSpec(z);
    forall i | 0 <= i < Min(|ks|, |vs|) && StartsWith(ks[i], "%")
      ensures ks[i] == "%" + ks[i][1..]
    {
      PctSplit(ks[i]);
    }
  }

  /** `parse_mpstat` raises exactly when the text is not two lines. */
  lemma MpstatSpec(s: string)
    ensures |SplitOn(s, "\n")| != 2 <==> Mpstat(s) == Err(ValueError)
    ensures Mpstat(s).Err? ==> Mpstat(s).exc == ValueError
  {
  }

  /** On two lines the result is the `%` columns of the zipped header and
      value rows (see `PctZip`). */
  lemma MpstatFields(s: string, ks: seq<string>, vs: seq<string>)
    requires |SplitOn(s, "\n")| == 2
    requires ks == Words(SplitOn(s, "\n")[0]) && vs == Words(SplitOn(s, "\n")[1])
    ensures Mpstat(s).Ok?
    ensures var (n, d) := (Min(|ks|, |vs|), Mpstat(s).value);
              && (forall k :: k in d <==> exists i :: 0 <= i < n && ks[i] == "%" + k)
              && (forall i :: 0 <= i < n && StartsWith(ks[i], "%") && (forall j :: i < j < n ==> ks[j] != ks[i])
                    ==> ks[i][1..] in d && d[ks[i][1..]] == vs[i])
  {
    MpstatZip(s, ks, vs);
    PctZip(ks, vs);
  }

  lemma MpstatZip(s: string, ks: seq<string>, vs: seq<string>)
    requires |SplitOn(s, "\n")| == 2
    requires ks == Words(SplitOn(s, "\n")[0]) && vs == Words(SplitOn(s, "\n")[1])
    ensures Mpstat(s) == Ok(PctFields(ZipDict(ks, vs)))
  {
  }

  /** Empty text is one line, not two: `parse_mpstat` raises. */
  lemma MpstatEmpty()
    ensures Mpstat("") == Err(ValueError)
  {
    assert SplitOn("", "\n") == [""];
  }

  // ------------------------------------------------------------ scratch log

  /** The scratch file `info.dat`: pickled triples appended one after
      another. Deleting the file empties the log; the first append creates
      it again. */
  class ScratchLog {
    var entries: seq<Triple>

    /** `os.unlink(DAT_FILE)`: no triples at all. */
    constructor ()
      ensures entries == []
    {
      entries := [];
    }

    /** `append_pickle(o, DAT_FILE)`: one more triple at the end. */
    method Append(t: Triple)
      modifies this
      ensures entries == old(entries) + [t]
    {
      entries := entries + [t];
    }
  }

  /** The kinds `collectdata` records, in the order it records them. */
  const Kinds: seq<string> := ["stats", "mem", "cores"]

  /** The triples `collectdata(host)` appends, given what the three
      probes returned: one per probe up to the first that raised. */
  function Collected(host: string, st: Result<map<string, string>>, m: Result<map<string, int>>,
                     l: Result<map<string, PyFloat>>): seq<Triple>
  {
    match st
    case Err(_) => []
    case Ok(stats) =>
      [Triple(host, "stats", Stats(stats))] +
      match m
      case Err(_) => []
      case Ok(mem) =>
        [Triple(host, "mem", Mem(mem))] +
        match l
        case Err(_) => []
        case Ok(load) => [Triple(host, "cores", Load(load))]
  }

  /** The exit status of `collectdata`. */
  function CollectStatus(st: Result<map<string, string>>, m: Result<map<string, int>>,
                         l: Result<map<string, PyFloat>>): int
  {
    if st.Ok? && m.Ok? && l.Ok? then EX_OK else EX_SOFTWARE
  }

  /** `collectdata(host)`, the probe outputs passed in. */
  method CollectData(log: ScratchLog, host: string, statsOut: string, memOut: string, loadOut: string)
    returns (code: int)
    modifies log
    ensures log.entries == old(log.entries) + Collected(host, Mpstat(statsOut), Meminfo(memOut), Loadavg(loadOut))
    ensures code == CollectStatus(Mpstat(statsOut), Meminfo(memOut), Loadavg(loadOut))
  {
    ghost var before := log.entries;
    var st := ParseMpstat(statsOut);
    if st.Err? {
      CollectedSteps(host, st, Meminfo(memOut), Loadavg(loadOut));
      return EX_SOFTWARE;
    }
    var t1 := Triple(host, "stats", Stats(st.value));
    log.Append(t1);
    var m := ParseMeminfo(memOut);
    if m.Err? {
      CollectedSteps(host, st, m, Loadavg(loadOut));
      return EX_SOFTWARE;
    }
    var t2 := Triple(host, "mem", Mem(m.value));
    log.Append(t2);
    ThreeAppends(before, t1, t2, None);
    var l := ParseLoadavg(loadOut);
    CollectedSteps(host, st, m, l);
    if l.Err? {
      return EX_SOFTWARE;
    }
    var t3 := Triple(host, "cores", Load(l.value));
    log.Append(t3);
    ThreeAppends(before, t1, t2, Some(t3));
    return EX_OK;
  }

  lemma ThreeAppends(a: seq<Triple>, x: Triple, y: Triple, z: Option<Triple>)
    ensures a + [x] + [y] == a + [x, y]
    ensures z.Some? ==> a + [x] + [y] + [z.value] == a + [x, y, z.value]
  {
  }

  /** `Collected` probe by probe: nothing when stats fail, then one triple
      per probe that succeeded before the first failure. */
  lemma CollectedSteps(host: string, st: Result<map<string, string>>, m: Result<map<string, int>>,
                       l: Result<map<string, PyFloat>>)
    ensures st.Err? ==> Collected(host, st, m, l) == []
    ensures st.Ok? ==> Collected(host, st, m, l) == [Triple(host, "stats", Stats(st.value))] + Collected(host, st, m, l)[1..]
    ensures st.Ok? && m.Err? ==> Collected(host, st, m, l) == [Triple(host, "stats", Stats(st.value))]
    ensures st.Ok? && m.Ok? && l.Err? ==>
              Collected(host, st, m, l) == [Triple(host, "stats", Stats(st.value)), Triple(host, "mem", Mem(m.value))]
    ensures st.Ok? && m.Ok? && l.Ok? ==>
              Collected(host, st, m, l) == [Triple(host, "stats", Stats(st.value)), Triple(host, "mem", Mem(m.value)),
                                            Triple(host, "cores", Load(l.value))]
  {
  }

  /** `collectdata` appends, for its own host only, a prefix of the kinds
      stats, mem, cores; all three exactly when it reports EX_OK, and
      fewer exactly when it reports EX_SOFTWARE. */
  lemma CollectedShape(host: string, st: Result<map<string, string>>, m: Result<map<string, int>>,
                       l: Result<map<string, PyFloat>>)
    ensures var ts := Collected(host, st, m, l);
            && |ts| <= 3
            && (forall i :: 0 <= i < |ts| ==> ts[i].host == host && ts[i].kind == Kinds[i])
            && (|ts| == 3 <==> CollectStatus(st, m, l) == EX_OK)
            && (|ts| < 3 <==> CollectStatus(st, m, l) == EX_SOFTWARE)
  {
  }

  /** `extract_pickle(DAT_FILE)`: the triples in the order they were
      appended, read one at a time until the end of the file; opening a
      file no child created raises `FileNotFoundError`. */
  method ExtractPickle(log: ScratchLog) returns (r: Result<seq<Triple>>)
    ensures r == if log.entries == [] then Err(FileNotFoundError) else Ok(log.entries)
  {
    if log.entries == [] {
      return Err(FileNotFoundError);
    }
    var out: seq<Triple> := [];
    var pos := 0;
    while pos < |log.entries|
      invariant 0 <= pos <= |log.entries|
      invariant out == log.entries[..pos]
    {
      out := out + [log.entries[pos]];
      pos := pos + 1;
    }
    assert log.entries[..pos] == log.entries;
    return Ok(out);
  }

  // ------------------------------------------------------------------- fold

  type Tree = map<string, map<string, Record>>

  /** `t[host][data_type] = data_tree` on an auto-vivifying tree. */
  function Put(t: Tree, e: Triple): Tree
  {
    t[e.host := (if e.host in t then t[e.host] else map[])[e.kind := e.rec]]
  }

  /** The tree `get_info` builds from the triples, in order. */
  function Fold(es: seq<Triple>): Tree
  {
    if es == [] then map[] else Put(Fold(es[..|es| - 1]), es[|es| - 1])
  }

  /** The loop of `get_info` over `extract_pickle(DAT_FILE)`. */
  method GetInfo(log: ScratchLog) returns (r: Result<Tree>)
    ensures r == if log.entries == [] then Err(FileNotFoundError) else Ok(Fold(log.entries))
  {
    var records := ExtractPickle(log);
    if records.Err? {
      return Err(records.exc);
    }
    var es := records.value;
    var t: Tree := map[];
    for i := 0 to |es|
      invariant t == Fold(es[..i])
    {
      assert es[..i + 1][..i] == es[..i];
      var e := es[i];
      var sub := if e.host in t then t[e.host] else map[];
      t := t[e.host := sub[e.kind := e.rec]];
    }
    assert es[..|es|] == es;
    return Ok(t);
  }

  /** One triple more: its slot takes its record, every other slot is
      left alone. */
  lemma PutSpec(t: Tree, e: Triple)
    ensures forall h :: h in Put(t, e) <==> h in t || h == e.host
    ensures Put(t, e)[e.host] == (if e.host in t then t[e.host] else map[])[e.kind := e.rec]
    ensures forall h :: h in t && h != e.host ==> Put(t, e)[h] == t[h]
  {
  }

  /** The hosts of the tree are exactly the hosts in the log. */
  lemma {:induction false} FoldHosts(es: seq<Triple>)
    ensures forall h :: h in Fold(es) <==> exists i :: 0 <= i < |es| && es[i].host == h
    decreases |es|
  {
    if es != [] {
      var n := |es| - 1;
      var init := es[..n];
      FoldHosts(init);
      PutSpec(Fold(init), es[n]);
      forall h ensures h in Fold(es) <==> exists i :: 0 <= i < |es| && es[i].host == h {
        if h in Fold(init) {
          var i :| 0 <= i < n && init[i].host == h;
          assert es[i].host == h;
        }
        if exists i :: 0 <= i < |es| && es[i].host == h {
          var i :| 0 <= i < |es| && es[i].host == h;
          if i < n { assert init[i].host == h; }
        }
      }
    }
  }

  /** `t[h]` holds exactly the kinds logged for `h`. */
  lemma {:induction false} FoldKinds(es: seq<Triple>, h: string)
    requires h in Fold(es)
    ensures forall c :: c in Fold(es)[h] <==> exists i :: 0 <= i < |es| && es[i].host == h && es[i].kind == c
    decreases |es|
  {
    var n := |es| - 1;
    var init := es[..n];
    var e := es[n];
    PutSpec(Fold(init), e);
    if h in Fold(init) {
      FoldKinds(init, h);
    } else {
      FoldHosts(init);
    }
    forall c ensures c in Fold(es)[h] <==> exists i :: 0 <= i < |es| && es[i].host == h && es[i].kind == c {
      if h in Fold(init) && c in Fold(init)[h] {
        var i :| 0 <= i < n && init[i].host == h && init[i].kind == c;
        assert es[i].host == h && es[i].kind == c;
      }
      if exists i :: 0 <= i < |es| && es[i].host == h && es[i].kind == c {
        var i :| 0 <= i < |es| && es[i].host == h && es[i].kind == c;
        if i < n { assert init[i].host == h && init[i].kind == c; }
      }
    }
  }

  /** `t[h][c]` is the record of the last triple tagged `(h, c)`. */
  lemma {:induction false} FoldLast(es: seq<Triple>, i: nat)
    requires i < |es|
    requires forall j :: i < j < |es| ==> es[j].host != es[i].host || es[j].kind != es[i].kind
    ensures es[i].host in Fold(es) && es[i].kind in Fold(es)[es[i].host]
    ensures Fold(es)[es[i].host][es[i].kind] == es[i].rec
    decreases |es|
  {
    var n := |es| - 1;
    var init := es[..n];
    PutSpec(Fold(init), es[n]);
    if i < n {
      assert init[i] == es[i];
      forall j | i < j < |init| ensures init[j].host != init[i].host || init[j].kind != init[i].kind {
        assert init[j] == es[j];
      }
      FoldLast(init, i);
    }
  }

  /** Assignments to different `(host, kind)` slots commute. */
  lemma PutCommutes(t: Tree, x: Triple, y: Triple)
    requires x.host != y.host || x.kind != y.kind
    ensures Put(Put(t, x), y) == Put(Put(t, y), x)
  {
    if x.host == y.host {
      var sub := if x.host in t then t[x.host] else map[];
      assert sub[x.kind := x.rec][y.kind := y.rec] == sub[y.kind := y.rec][x.kind := x.rec];
    }
  }

  /** The children write their triples concurrently, so the log may
      interleave them in any order; the tree does not depend on that order
      as long as no two triples share a `(host, kind)` slot. Swapping two
      neighbouring such triples anywhere in the log leaves the tree alone. */
  lemma {:induction false} FoldSwap(a: seq<Triple>, x: Triple, y: Triple, b: seq<Triple>)
    requires x.host != y.host || x.kind != y.kind
    ensures Fold(a + [x, y] + b) == Fold(a + [y, x] + b)
    decreases |b|
  {
    if b == [] {
      assert (a + [x, y] + b)[..|a| + 1] == a + [x];
      assert (a + [y, x] + b)[..|a| + 1] == a + [y];
      assert (a + [x])[..|a|] == a && (a + [y])[..|a|] == a;
      PutCommutes(Fold(a), x, y);
    } else {
      var n := |b| - 1;
      FoldSwap(a, x, y, b[..n]);
      assert (a + [x, y] + b)[..|a| + 2 + n] == a + [x, y] + b[..n];
      assert (a + [y, x] + b)[..|a| + 2 + n] == a + [y, x] + b[..n];
    }
  }

  /** One successful `collectdata` on a fresh scratch file, then
      `get_info`: the host's subtree holds the three parsed records. */
  lemma CollectThenFold(host: string, st: Result<map<string, string>>, m: Result<map<string, int>>,
                        l: Result<map<string, PyFloat>>)
    requires CollectStatus(st, m, l) == EX_OK
    ensures var es := Collected(host, st, m, l);
            && Fold(es).Keys == {host}
            && Fold(es)[host] == map["stats" := Stats(st.value), "mem" := Mem(m.value), "cores" := Load(l.value)]
  {
    CollectedSteps(host, st, m, l);
    var es := Collected(host, st, m, l);
    assert es[..2][..1] == es[..1] && es[..|es| - 1] == es[..2];
    assert es[..1][..0] == [];
    var t1 := Put(map[], es[0]);
    assert Fold(es[..1]) == t1;
    var t2 := Put(t1, es[1]);
    assert Fold(es[..2]) == t2;
    assert Fold(es) == Put(t2, es[2]);
  }
}
