/** The text side of the spydurview dashboard (spydurview.py): the node
    state tables, the node listing, the reachable/unreachable split, what a
    per-node probe writes to the scratch file and how that file is read
    back, and the rows of the dashboard. Every command's output is passed in
    as text. */
module SpydurView {
  import opened PyText
  import opened PyNum
  import opened PyCollections
  import opened Scaling
  import Mapper

  // ------------------------------------------------------------ tables

  /** `tuple("*~#!%$@^-")`: the one-character state suffixes of `sinfo`. */
  const SuffixKeys: seq<string> := ["*", "~", "#", "!", "%", "$", "@", "^", "-"]

  const SuffixValues: seq<string> := [
    "not responding", "powered off", "powering on", "pending shutdown", "powering down",
    "reserved for maintenance", "pending reboot", "rebooting", "rescheduling"]

  /** `suffixes = dict(zip(suffix_keys, suffix_values))`. */
  const Suffixes: map<string, string> := ZipDict(SuffixKeys, SuffixValues)

  /** The abbreviated node states of `sinfo -o "%t"`. */
  const StateKeys: seq<string> := [
    "alloc", "comp", "down", "drain", "drng",
    "fail", "failg", "futr", "idle", "maint",
    "mix", "pow_dn", "pow_up", "resv", "unk"]

  /** Their descriptions, the misspelt "unavialable" included. */
  const StateValues: seq<string> := [
    "allocated", "completing", "down", "unavialable", "becoming unavailable",
    "failed", "failing", "not yet configured", "idle", "maintenance",
    "partially full", "powered down", "powering up", "reserved", "unknown state"]

  /** `states = dict(zip(state_keys, state_values))`. */
  const States: map<string, string> := ZipDict(StateKeys, StateValues)

  /** The nine suffixes are distinct one-character strings. */
  lemma SuffixKeysDistinct()
    ensures |SuffixKeys| == |SuffixValues| == 9
    ensures forall i, j :: 0 <= i < j < |SuffixKeys| ==> SuffixKeys[i] != SuffixKeys[j]
    ensures forall i :: 0 <= i < |SuffixKeys| ==> |SuffixKeys[i]| == 1
  {
  }

  /** `suffixes` maps each of the nine characters `*~#!%$@^-` to the
      description at the same position, and holds nothing else. */
  lemma SuffixTable()
    ensures |Suffixes.Keys| == 9
    ensures forall k :: k in Suffixes <==> k in SuffixKeys
    ensures forall i :: 0 <= i < 9 ==> Suffixes[SuffixKeys[i]] == SuffixValues[i]
    ensures forall k :: k in Suffixes ==> |k| == 1
  {
    SuffixKeysDistinct();
    assert SuffixKeys[..9] == SuffixKeys && SuffixValues[..9] == SuffixValues;
    AssignPositional(SuffixKeys, SuffixValues);
    AssignKeys(SuffixKeys, SuffixValues);
  }

  lemma StateKeysDistinct()
    ensures |StateKeys| == |StateValues| == 15
    ensures forall i, j :: 0 <= i < j < |StateKeys| ==> StateKeys[i] != StateKeys[j]
  {
    forall i, j | 0 <= i < j < |StateKeys| ensures StateKeys[i] != StateKeys[j] {
      assert StateKeys[i][0] != StateKeys[j][0] || |StateKeys[i]| != |StateKeys[j]|
          || StateKeys[i][1] != StateKeys[j][1] || StateKeys[i][4] != StateKeys[j][4];
    }
  }

  /** `states` maps each of the fifteen abbreviations to the text at the
      same position, and holds nothing else. */
  lemma StateTable()
    ensures |States.Keys| == 15
    ensures forall k :: k in States <==> k in StateKeys
    ensures forall i :: 0 <= i < 15 ==> States[StateKeys[i]] == StateValues[i]
  {
    StateKeysDistinct();
    assert StateKeys[..15] == StateKeys && StateValues[..15] == StateValues;
    AssignPositional(StateKeys, StateValues);
    AssignKeys(StateKeys, StateValues);
  }

  // ------------------------------------------------------------ node listing

  /** One line of `sinfo -o "%n %t"`: `node, state = line.split()` raises
      `ValueError` unless the line has exactly two fields. */
  function NodeLine(line: string): Result<(string, string)>
  {
    var ws := Words(line);
    if |ws| != 2 then Err(ValueError) else Ok((ws[0], ws[1]))
  }

  function Names(ps: seq<(string, string)>): (r: seq<string>)
    ensures |r| == |ps| && forall i :: 0 <= i < |ps| ==> r[i] == ps[i].0
  {
    seq(|ps|, i requires 0 <= i < |ps| => ps[i].0)
  }

  function StatesOf(ps: seq<(string, string)>): (r: seq<string>)
    ensures |r| == |ps| && forall i :: 0 <= i < |ps| ==> r[i] == ps[i].1
  {
    seq(|ps|, i requires 0 <= i < |ps| => ps[i].1)
  }

  /** The dict `get_list_of_nodes` builds from the lines after the header:
      `node_dict[node] = state` line by line, or the error of the first line
      that does not unpack. */
  function NodesOf(lines: seq<string>): Result<map<string, string>>
  {
    var ps :- Traverse(NodeLine, lines);
    Ok(Assign(Names(ps), StatesOf(ps)))
  }

  /** The lines `get_list_of_nodes` reads: `result.split('\n')[1:]`. */
  function ListingLines(out: string): seq<string>
  {
    SplitOn(out, "\n")[1..]
  }

  /** `get_list_of_nodes`, the listing passed in. */
  method GetListOfNodes(out: string) returns (r: Result<map<string, string>>)
    ensures r == NodesOf(ListingLines(out))
  {
    var info := ListingLines(out);
    var nodeDict: map<string, string> := map[];
    ghost var ps: seq<(string, string)> := [];
    for i := 0 to |info|
      invariant Traverse(NodeLine, info[..i]) == Ok(ps)
      invariant nodeDict == Assign(Names(ps), StatesOf(ps))
    {
      var line := NodeLine(info[i]);
      if line.Err? {
        TraverseStops(NodeLine, info, i);
        return Err(line.exc);
      }
      var (node, state) := line.value;
      TraverseStep(NodeLine, info, i, ps);
      PairsSnoc(ps, node, state);
      nodeDict := nodeDict[node := state];
      ps := ps + [line.value];
    }
    assert info[..|info|] == info;
    return Ok(nodeDict);
  }

  /** One more line: one more assignment. */
  lemma PairsSnoc(ps: seq<(string, string)>, node: string, state: string)
    ensures Assign(Names(ps + [(node, state)]), StatesOf(ps + [(node, state)]))
            == Assign(Names(ps), StatesOf(ps))[node := state]
  {
    assert Names(ps + [(node, state)]) == Names(ps) + [node];
    assert StatesOf(ps + [(node, state)]) == StatesOf(ps) + [state];
    AssignSnoc(Names(ps), StatesOf(ps), node, state);
  }

  /** A single line without exactly two fields makes the whole call raise
      `ValueError`; otherwise the call returns a dict. */
  lemma NodesSpec(lines: seq<string>)
    ensures NodesOf(lines).Ok? <==> forall i :: 0 <= i < |lines| ==> |Words(lines[i])| == 2
    ensures NodesOf(lines).Err? ==> NodesOf(lines).exc == ValueError
  {
    TraverseSpec(NodeLine, lines);
  }

  /** The first and second fields of every line. */
  function Firsts(lines: seq<string>): (r: seq<string>)
    requires forall i :: 0 <= i < |lines| ==> |Words(lines[i])| == 2
    ensures |r| == |lines| && forall i :: 0 <= i < |lines| ==> r[i] == Words(lines[i])[0]
  {
    seq(|lines|, i requires 0 <= i < |lines| => Words(lines[i])[0])
  }

  function Seconds(lines: seq<string>): (r: seq<string>)
    requires forall i :: 0 <= i < |lines| ==> |Words(lines[i])| == 2
    ensures |r| == |lines| && forall i :: 0 <= i < |lines| ==> r[i] == Words(lines[i])[1]
  {
    seq(|lines|, i requires 0 <= i < |lines| => Words(lines[i])[1])
  }

  /** When every line unpacks, the dict is `node_dict[node] = state` done
      line by line. */
  lemma NodesAssign(lines: seq<string>)
    requires forall i :: 0 <= i < |lines| ==> |Words(lines[i])| == 2
    ensures NodesOf(lines) == Ok(Assign(Firsts(lines), Seconds(lines)))
  {
    TraverseSpec(NodeLine, lines);
    var ps := Traverse(NodeLine, lines).value;
    assert Names(ps) == Firsts(lines) && StatesOf(ps) == Seconds(lines) by {
      forall i | 0 <= i < |lines| ensures ps[i] == NodeLine(lines[i]).value { }
    }
  }

  /** The dict holds a node exactly when some line names it. */
  lemma NodesKeys(lines: seq<string>)
    requires forall i :: 0 <= i < |lines| ==> |Words(lines[i])| == 2
    ensures NodesOf(lines).Ok?
    ensures forall n :: n in NodesOf(lines).value <==> exists i :: 0 <= i < |lines| && Words(lines[i])[0] == n
  {
    NodesAssign(lines);
    var ns := Firsts(lines);
    var m := Assign(ns, Seconds(lines));
    AssignSpec(ns, Seconds(lines));
    forall n ensures n in m <==> exists i :: 0 <= i < |lines| && Words(lines[i])[0] == n {
      if n in m {
        var i :| 0 <= i < |ns| && ns[i] == n;
        assert Words(lines[i])[0] == n;
      }
    }
  }

  /** A node gets the state of the last line that names it. */
  lemma NodesLast(lines: seq<string>, i: nat)
    requires forall i :: 0 <= i < |lines| ==> |Words(lines[i])| == 2
    requires i < |lines| && forall j :: i < j < |lines| ==> Words(lines[j])[0] != Words(lines[i])[0]
    ensures NodesOf(lines).Ok? && Words(lines[i])[0] in NodesOf(lines).value
    ensures NodesOf(lines).value[Words(lines[i])[0]] == Words(lines[i])[1]
  {
    NodesAssign(lines);
    var (ns, st) := (Firsts(lines), Seconds(lines));
    AssignSpec(ns, st);
    assert forall j :: i < j < |ns| ==> ns[j] != ns[i];
  }

  /** A listing that ends in a newline, as command output does, leaves an
      empty last line, which does not unpack into two fields: the call then
      raises `ValueError` whatever the other lines hold. */
  lemma TrailingNewline(body: string)
    ensures NodesOf(ListingLines(body + "\n")) == Err(ValueError)
  {
    SplitOnSnoc(body, '\n');
    var lines := ListingLines(body + "\n");
    assert lines[|lines| - 1] == "";
    assert Words("") == [];
    NodesSpec(lines);
  }

  // ------------------------------------------------------------ reachable nodes

  /** The test of the `reachable_nodes` comprehension in `fork_ssh`:
      `state[-1] not in suffixes and state[1:] not in 'd'`, the second part
      being Python's substring test on the string `'d'`. */
  predicate Reachable(state: string)
    requires state != []
  {
    [state[|state| - 1]] !in Suffixes && !Contains("d", state[1..])
  }

  /** `reachable_nodes` and `unreachable_nodes` of `fork_ssh`; `state[-1]`
      raises `IndexError` on an empty state, which aborts both. */
  function Partition(nodes: map<string, string>): Result<(map<string, string>, map<string, string>)>
  {
    if exists n :: n in nodes && nodes[n] == "" then Err(IndexError)
    else
      var reach := map n | n in nodes && Reachable(nodes[n]) :: nodes[n];
      var unreach := map n | n in nodes && n !in reach :: nodes[n];
      Ok((reach, unreach))
  }

  /** Which states count as reachable: the last character is not one of the
      nine suffixes, and what follows the first character is neither empty
      nor exactly `d`. So a one-letter state is never reachable. */
  lemma ReachableIff(state: string)
    requires state != []
    ensures Reachable(state) <==>
      (state[|state| - 1 ..] !in SuffixKeys && |state| >= 2 && state[1..] != "d")
  {
    SuffixOfLast(state);
    ContainedInOneChar('d', state[1..]);
  }

  lemma SuffixOfLast(state: string)
    requires state != []
    ensures ([state[|state| - 1]] in Suffixes) == (state[|state| - 1 ..] in SuffixKeys)
  {
    assert [state[|state| - 1]] == state[|state| - 1 ..];
    SuffixTable();
  }

  /** The split fails exactly when some state is empty (which every node of
      a host file has, its states being `""`). Otherwise the two dicts are
      disjoint, together hold every node with its own state, and a node is
      reachable exactly when its state passes `Reachable`. */
  lemma PartitionSpec(nodes: map<string, string>)
    ensures Partition(nodes).Err? <==> exists n :: n in nodes && nodes[n] == ""
    ensures Partition(nodes).Err? ==> Partition(nodes).exc == IndexError
    ensures Partition(nodes).Ok? ==>
      var (reach, unreach) := Partition(nodes).value;
      reach.Keys !! unreach.Keys && reach.Keys + unreach.Keys == nodes.Keys &&
      (forall n :: n in reach ==> reach[n] == nodes[n]) &&
      (forall n :: n in unreach ==> unreach[n] == nodes[n]) &&
      (forall n :: n in nodes ==> (n in reach <==> Reachable(nodes[n])))
  {
  }

  /** The states of a host file (`dict.fromkeys(hosts, "")`) never reach
      the probes: the split raises as soon as there is one host. */
  lemma HostFileRaises(hosts: set<string>)
    requires hosts != {}
    ensures Partition(map h | h in hosts :: "") == Err(IndexError)
  {
    var h :| h in hosts;
    assert (map h | h in hosts :: "")[h] == "";
  }

  // ------------------------------------------------------------ probes

  /** `get_actual_cores_usage`: the first five characters of the node's
      `/proc/loadavg`, or `'None'` when the probe printed nothing. */
  function CoresUsage(output: string): (r: string)
    ensures output == "" ==> r == "None"
    ensures output != "" ==> |r| == Min(|output|, 5) && StartsWith(output, r)
  {
    var result := Take(output, 5);
    if result == "" then "None" else result
  }

  /** What `get_actual_mem_usage` returns: the string `'None'` or an int. */
  datatype MemProbe = NoMem | Gigabytes(gb: int)

  /** `get_actual_mem_usage`: `'None'` when the probe printed nothing;
      otherwise the text before the first literal `"/n"` (not a newline),
      its first two runs of digits read as ints, and
      `ceil((first - second) / 1000000)`. Fewer than two runs raise
      `IndexError`. */
  function MemUsage(output: string): Result<MemProbe>
  {
    if output == "" then Ok(NoMem)
    else
      var memvals := DigitRuns(SplitOn(output, "/n")[0]);
      if |memvals| < 2 then Err(IndexError)
      else
        match (ParseInt(memvals[0]), ParseInt(memvals[1]))
        case (Some(total), Some(used)) => Ok(Gigabytes(CeilDiv(total - used, 1000000)))
        case _ => Err(ValueError)
  }

  /** `str(res)` as the child writes it. */
  function MemText(m: MemProbe): string
  {
    match m
    case NoMem => "None"
    case Gigabytes(n) => IntToStr(n)
  }

  /** Every run of digits parses, so the memory probe never raises
      `ValueError`: it gives `'None'` for no output, `IndexError` for fewer
      than two runs, and otherwise the number of millions (rounded up) by
      which the first run exceeds the second. */
  lemma MemUsageSpec(output: string)
    ensures output == "" ==> MemUsage(output) == Ok(NoMem)
    ensures output != "" ==>
      var memvals := DigitRuns(SplitOn(output, "/n")[0]);
      (MemUsage(output).Err? <==> |memvals| < 2) &&
      (MemUsage(output).Err? ==> MemUsage(output).exc == IndexError) &&
      (MemUsage(output).Ok? ==>
        AllSat(memvals[0], IsDigit) && AllSat(memvals[1], IsDigit) &&
        ParseInt(memvals[0]).Some? && ParseInt(memvals[1]).Some? &&
        var d := ParseInt(memvals[0]).value - ParseInt(memvals[1]).value;
        MemUsage(output).value.Gigabytes? &&
        (MemUsage(output).value.gb - 1) * 1000000 < d <= MemUsage(output).value.gb * 1000000)
  {
    if output != "" {
      var memvals := DigitRuns(SplitOn(output, "/n")[0]);
      RunsAreRuns(SplitOn(output, "/n")[0], IsDigit);
      if |memvals| >= 2 {
        assert AllSat(memvals[0], IsDigit) && AllSat(memvals[1], IsDigit);
        ParseIntDigits(memvals[0]);
        ParseIntDigits(memvals[1]);
      }
    }
  }

  /** Real probe output has newlines but no `"/n"`, so the two runs are
      taken from the whole text: from `MemTotal:` and `MemFree:` of the
      meminfo head. */
  lemma MemUsageWholeText(output: string)
    requires output != "" && !Contains(output, "/n")
    ensures DigitRuns(SplitOn(output, "/n")[0]) == DigitRuns(output)
  {
    SplitOnAbsent(output, "/n");
  }

  /** What one child of `fork_ssh` reports for its node: the node, its
      cores result and its memory result, as written to the scratch file. */
  datatype Probe = Probe(node: string, cores: string, mem: string)

  /** The report of the child for `node`, or the error of the memory probe,
      in which case the child writes nothing. The cores probe cannot
      raise. */
  function Probed(node: string, loadOut: string, memOut: string): Result<Probe>
  {
    var mem :- MemUsage(memOut);
    Ok(Probe(node, CoresUsage(loadOut), MemText(mem)))
  }

  /** `f'{node} {cores_used} {mem_used}'`, the line a child writes, before
      its newline. */
  function ProbeText(p: Probe): string
  {
    p.node + " " + p.cores + " " + p.mem
  }

  /** The scratch file once the children for `ps` have written, in that
      order: one line per report. */
  function ScratchText(ps: seq<Probe>): string
  {
    if ps == [] then "" else ProbeText(ps[0]) + "\n" + ScratchText(ps[1..])
  }

  /** `node, core, mem = line.split()` in `get_info`: a line without
      exactly three fields raises, and the error is logged and the line
      skipped. */
  function DatLine(line: string): Result<Probe>
  {
    var ws := Words(line);
    if |ws| != 3 then Err(ValueError) else Ok(Probe(ws[0], ws[1], ws[2]))
  }

  /** The lines `f.readlines()` gives for the scratch file, opened in
      text mode, without their newlines: the file's text with its line
      ends made `\n`, split at each `\n`. The last piece, after the final
      newline, is empty when the file ends in one; it has no fields and is
      skipped like any malformed line. */
  function FileLines(dat: string): (r: seq<string>)
    ensures forall i :: 0 <= i < |r| ==> '\n' !in r[i] && '\r' !in r[i]
  {
    var t := UniversalNewlines(dat);
    UniversalNoReturn(dat);
    SplitOnPieces(t, '\n', '\r');
    assert "\n" == ['\n'];
    SplitOn(t, "\n")
  }

  /** A `\r` on its own ends a line of the scratch file: a report text
      such as "n1 0.52\r 3" is read as two lines, "n1 0.52" and " 3". */
  lemma ReturnEndsLine(a: string, b: string)
    requires LineText(a) && (b == [] || b[0] != '\n')
    ensures FileLines(a + "\r" + b) == [a] + FileLines(b)
  {
    UniversalReturn(a, b);
    UniversalPlain(a);
    SplitOnCons(a, '\n', UniversalNewlines(b));
  }

  /** The reports `get_info` reads from the scratch file, in file order. */
  function ProbesOf(dat: string): seq<Probe>
  {
    Oks(DatLine, FileLines(dat))
  }

  function ProbeNodes(ps: seq<Probe>): (r: seq<string>)
    ensures |r| == |ps| && forall i :: 0 <= i < |ps| ==> r[i] == ps[i].node
  {
    seq(|ps|, i requires 0 <= i < |ps| => ps[i].node)
  }

  function ProbeCores(ps: seq<Probe>): (r: seq<string>)
    ensures |r| == |ps| && forall i :: 0 <= i < |ps| ==> r[i] == ps[i].cores
  {
    seq(|ps|, i requires 0 <= i < |ps| => ps[i].cores)
  }

  function ProbeMems(ps: seq<Probe>): (r: seq<string>)
    ensures |r| == |ps| && forall i :: 0 <= i < |ps| ==> r[i] == ps[i].mem
  {
    seq(|ps|, i requires 0 <= i < |ps| => ps[i].mem)
  }

  /** `actually_used_cores` once the scratch file is read. */
  function UsedCores(dat: string): map<string, string>
  {
    Assign(ProbeNodes(ProbesOf(dat)), ProbeCores(ProbesOf(dat)))
  }

  /** `actually_used_mem` once the scratch file is read. */
  function UsedMem(dat: string): map<string, string>
  {
    Assign(ProbeNodes(ProbesOf(dat)), ProbeMems(ProbesOf(dat)))
  }

  /** The fields of a written line are the words of the three values. */
  lemma ProbeTextWords(p: Probe)
    ensures Words(ProbeText(p)) == Words(p.node) + Words(p.cores) + Words(p.mem)
  {
    WordsGap(p.node, " ", p.cores);
    WordsGap(p.node + " " + p.cores, " ", p.mem);
  }

  /** No field of a report holds a line end, so its written line is one
      line of the file when read back in text mode. */
  predicate OneLine(p: Probe)
  {
    LineText(p.node) && LineText(p.cores) && LineText(p.mem)
  }

  /** A text holding neither `\n` nor `\r`, the two characters that end a
      line in text mode. */
  predicate LineText(s: string)
  {
    NoNewline(s) && '\r' !in s
  }

  /** Each field of a report is one word to `str.split()`, whitespace
      around it allowed, as in the cores report "0.52 ". */
  predicate OneWordEach(p: Probe)
  {
    |Words(p.node)| == 1 && |Words(p.cores)| == 1 && |Words(p.mem)| == 1
  }

  /** A report as `get_info` reads it back: each field stripped. */
  function Stripped(p: Probe): Probe
  {
    Probe(Strip(p.node), Strip(p.cores), Strip(p.mem))
  }

  function StrippedAll(ps: seq<Probe>): (r: seq<Probe>)
    ensures |r| == |ps| && forall i :: 0 <= i < |ps| ==> r[i] == Stripped(ps[i])
  {
    seq(|ps|, i requires 0 <= i < |ps| => Stripped(ps[i]))
  }

  /** A report whose fields are plain words reads back unchanged. */
  lemma StrippedPlain(p: Probe)
    requires p.node != [] && NoSpace(p.node) && p.cores != [] && NoSpace(p.cores)
    requires p.mem != [] && NoSpace(p.mem)
    ensures Stripped(p) == p
  {
    StripKeeps(p.node);
    StripKeeps(p.cores);
    StripKeeps(p.mem);
  }

  /** `node, core, mem = line.split()` on a written line gives the three
      fields stripped. */
  lemma DatLineOfProbe(p: Probe)
    requires OneWordEach(p)
    ensures DatLine(ProbeText(p)) == Ok(Stripped(p))
  {
    ProbeTextColumns(p);
  }

  lemma ProbeTextColumns(p: Probe)
    requires OneWordEach(p)
    ensures Words(ProbeText(p)) == [Strip(p.node), Strip(p.cores), Strip(p.mem)]
  {
    ProbeTextWords(p);
    StripOneWord(p.node);
    StripOneWord(p.cores);
    StripOneWord(p.mem);
    TripleSeq(Strip(p.node), Strip(p.cores), Strip(p.mem));
  }

  /** `readlines` keeps each line's newline; `split()` ignores it. */
  lemma DatLineNewline(line: string)
    ensures DatLine(line + "\n") == DatLine(line)
  {
    WordsTrail(line, '\n');
  }

  /** A `/proc/loadavg` text: a load of at least four non-blank
      characters ("0.52", "12.34") and then something that does not end a
      line. */
  predicate LoadavgHead(out: string)
  {
    |out| >= 5 && NoSpace(out[..4]) && out[4] != '\n' && out[4] != '\r'
  }

  /** The cores report of a node is one word on one line: `'None'`, or the
      load's first four characters plus a blank, or its first five. */
  lemma CoresReport(out: string)
    requires out == "" || LoadavgHead(out)
    ensures LineText(CoresUsage(out)) && |Words(CoresUsage(out))| == 1
    ensures Strip(CoresUsage(out)) ==
      if out == "" then "None" else if IsSpace(out[4]) then out[..4] else out[..5]
  {
    if out == "" {
      NoneWord();
    } else {
      var r := CoresUsage(out);
      assert r == out[..4] + [out[4]];
      if IsSpace(out[4]) {
        PaddedWord(out[..4], out[4]);
      } else {
        PlainWord(out[..4], out[4]);
      }
    }
  }

  /** A word followed by one blank that does not end a line. */
  lemma PaddedWord(w: string, c: char)
    requires w != [] && NoSpace(w) && IsSpace(c) && c != '\n' && c != '\r'
    ensures LineText(w + [c]) && |Words(w + [c])| == 1 && Strip(w + [c]) == w
  {
    PaddedNoNewline(w, c);
    WordsTrail(w, c);
    WordsOne(w);
    PaddedStrip(w, c);
  }

  lemma PaddedNoNewline(w: string, c: char)
    requires NoSpace(w) && c != '\n' && c != '\r'
    ensures LineText(w + [c])
  {
    assert forall j :: 0 <= j < |w| ==> (w + [c])[j] == w[j];
    WordLine(w);
  }

  /** A word holds no line end: both `\n` and `\r` are blanks. */
  lemma WordLine(w: string)
    requires NoSpace(w)
    ensures LineText(w)
  {
    assert IsSpace('\n') && IsSpace('\r');
    assert forall j :: 0 <= j < |w| ==> w[j] != '\r';
  }

  lemma PaddedStrip(w: string, c: char)
    requires w != [] && NoSpace(w) && IsSpace(c)
    ensures Strip(w + [c]) == w
  {
    var r := w + [c];
    assert r[0] == w[0];
    StripTrail(r);
    assert r[..|w|] == w;
    StripKeeps(w);
  }

  /** A word extended by one more non-blank character. */
  lemma PlainWord(w: string, c: char)
    requires w != [] && NoSpace(w) && !IsSpace(c)
    ensures LineText(w + [c]) && |Words(w + [c])| == 1 && Strip(w + [c]) == w + [c]
  {
    var r := w + [c];
    assert forall j :: 0 <= j < |w| ==> r[j] == w[j];
    assert NoSpace(r);
    WordLine(r);
    WordsOne(r);
    StripKeeps(r);
  }

  lemma NoneWord()
    ensures LineText("None") && Words("None") == ["None"] && Strip("None") == "None"
  {
    WordsOne("None");
    WordLine("None");
  }

  /** A word holds no newline, splits as itself and strips to itself. */
  lemma PlainField(w: string)
    requires w != [] && NoSpace(w)
    ensures LineText(w) && Words(w) == [w] && Strip(w) == w
  {
    WordsOne(w);
    WordLine(w);
    StripKeeps(w);
  }

  /** The memory report is one word on one line. */
  lemma MemReport(m: MemProbe)
    ensures LineText(MemText(m)) && Words(MemText(m)) == [MemText(m)] && Strip(MemText(m)) == MemText(m)
  {
    match m
    case NoMem => NoneWord();
    case Gigabytes(n) =>
      IntToStrWord(n);
      PlainField(IntToStr(n));
  }

  /** The report of a child whose probes succeeded. */
  lemma ProbedValue(node: string, loadOut: string, memOut: string)
    requires Probed(node, loadOut, memOut).Ok?
    ensures MemUsage(memOut).Ok?
    ensures Probed(node, loadOut, memOut).value == Probe(node, CoresUsage(loadOut), MemText(MemUsage(memOut).value))
  {
  }

  /** A child's report for a node named by one word, given a loadavg
      text: one line, one word per field, read back with the cores
      field stripped and the rest unchanged. */
  lemma ProbedReadBack(node: string, loadOut: string, memOut: string)
    requires node != [] && NoSpace(node)
    requires loadOut == "" || LoadavgHead(loadOut)
    requires Probed(node, loadOut, memOut).Ok?
    ensures var p := Probed(node, loadOut, memOut).value;
      OneLine(p) && OneWordEach(p) && Stripped(p) == Probe(node, Strip(p.cores), p.mem)
  {
    ProbedValue(node, loadOut, memOut);
    ReportReadBack(node, loadOut, MemUsage(memOut).value);
  }

  lemma ReportReadBack(node: string, loadOut: string, m: MemProbe)
    requires node != [] && NoSpace(node)
    requires loadOut == "" || LoadavgHead(loadOut)
    ensures var p := Probe(node, CoresUsage(loadOut), MemText(m));
      OneLine(p) && OneWordEach(p) && Stripped(p) == Probe(node, Strip(p.cores), p.mem)
  {
    CoresReport(loadOut);
    MemReport(m);
    PlainField(node);
  }

  /** The usual report, for a load below 10, has a blank after the load;
      it meets `ScratchRoundTrip`'s requirement and reads back without the
      blank. */
  lemma UsualCoresReport(node: string, mem: string)
    requires node != [] && NoSpace(node) && mem != [] && NoSpace(mem)
    ensures CoresUsage("0.52 0.58 0.59 1/467 12345\n") == "0.52 "
    ensures var p := Probe(node, "0.52 ", mem);
      OneLine(p) && OneWordEach(p) && Stripped(p) == Probe(node, "0.52", mem)
  {
    UsualLoad();
    assert "0.52 " == "0.52" + [' '];
    PaddedWord("0.52", ' ');
    PlainField(node);
    PlainField(mem);
  }

  lemma UsualLoad()
    ensures CoresUsage("0.52 0.58 0.59 1/467 12345\n") == "0.52 "
  {
    assert "0.52 0.58 0.59 1/467 12345\n"[..5] == "0.52 ";
  }


  lemma TripleSeq(a: string, b: string, c: string)
    ensures [a] + [b] + [c] == [a, b, c]
  {
  }

  /** Splitting the scratch file on newlines gives the written lines and an
      empty last piece. */
  lemma {:induction false} ScratchLines(ps: seq<Probe>)
    requires forall i :: 0 <= i < |ps| ==> OneLine(ps[i])
    ensures SplitOn(ScratchText(ps), "\n") == WrittenLines(ps) + [""]
  {
    if ps == [] {
      assert SplitOn("", "\n") == [""];
    } else {
      var t := ProbeText(ps[0]);
      var rest := ScratchText(ps[1..]);
      ProbeTextNoNewline(ps[0]);
      SplitOnCons(t, '\n', rest);
      ScratchLines(ps[1..]);
      WrittenLinesCons(ps);
      SeqAssoc([t], WrittenLines(ps[1..]), [""]);
    }
  }

  /** Nothing the children write holds a `\r`, so text mode reads the
      file unchanged. */
  lemma {:induction false} ScratchNoReturn(ps: seq<Probe>)
    requires forall i :: 0 <= i < |ps| ==> OneLine(ps[i])
    ensures '\r' !in ScratchText(ps)
  {
    if ps != [] {
      ProbeTextNoNewline(ps[0]);
      ScratchNoReturn(ps[1..]);
    }
  }

  lemma WrittenLinesCons(ps: seq<Probe>)
    requires ps != []
    ensures WrittenLines(ps) == [ProbeText(ps[0])] + WrittenLines(ps[1..])
  {
  }

  /** A written line whose values hold no line end has none. */
  lemma ProbeTextNoNewline(p: Probe)
    requires OneLine(p)
    ensures LineText(ProbeText(p))
  {
    var t := ProbeText(p);
    var (a, b) := (|p.node|, |p.node| + 1 + |p.cores|);
    forall i | 0 <= i < |t| ensures t[i] != '\n' {
      if i < a { assert t[i] == p.node[i]; }
      else if i == a || i == b { assert t[i] == ' '; }
      else if i < b { assert t[i] == p.cores[i - a - 1]; }
      else { assert t[i] == p.mem[i - b - 1]; }
    }
  }

  /** What the children write is what `get_info` reads back: the reports
      in writing order, each field stripped (the trailing empty piece is
      skipped as malformed). */
  lemma ScratchRoundTrip(ps: seq<Probe>)
    requires forall i :: 0 <= i < |ps| ==> OneLine(ps[i]) && OneWordEach(ps[i])
    ensures ProbesOf(ScratchText(ps)) == StrippedAll(ps)
  {
    ScratchNoReturn(ps);
    UniversalPlain(ScratchText(ps));
    ScratchLines(ps);
    WrittenLinesRead(ps);
    DatLineEmpty();
    OksSnocErr(DatLine, WrittenLines(ps), "");
  }

  /** The lines written for `ps`, without their newlines. */
  function WrittenLines(ps: seq<Probe>): (r: seq<string>)
    ensures |r| == |ps| && forall i :: 0 <= i < |ps| ==> r[i] == ProbeText(ps[i])
  {
    seq(|ps|, i requires 0 <= i < |ps| => ProbeText(ps[i]))
  }

  lemma WrittenLinesRead(ps: seq<Probe>)
    requires forall i :: 0 <= i < |ps| ==> OneWordEach(ps[i])
    ensures Oks(DatLine, WrittenLines(ps)) == StrippedAll(ps)
  {
    var lines := WrittenLines(ps);
    var qs := StrippedAll(ps);
    forall i | 0 <= i < |lines| ensures DatLine(lines[i]) == Ok(qs[i]) {
      DatLineOfProbe(ps[i]);
    }
    OksAll(DatLine, lines, qs);
  }

  /** The empty piece after the last newline is skipped. */
  lemma DatLineEmpty()
    ensures DatLine("") == Err(ValueError)
  {
    assert Words("") == [];
  }

  lemma ProbesSnoc(ps: seq<Probe>, p: Probe)
    ensures ProbeNodes(ps + [p]) == ProbeNodes(ps) + [p.node]
    ensures ProbeCores(ps + [p]) == ProbeCores(ps) + [p.cores]
    ensures ProbeMems(ps + [p]) == ProbeMems(ps) + [p.mem]
  {
  }

  /** The loop of `get_info` over the scratch file's lines, filling
      `actually_used_cores` and `actually_used_mem`. */
  method ReadScratch(dat: string) returns (cores: map<string, string>, mem: map<string, string>)
    ensures cores == UsedCores(dat) && mem == UsedMem(dat)
  {
    var lines := FileLines(dat);
    cores, mem := map[], map[];
    ghost var ps: seq<Probe> := [];
    for i := 0 to |lines|
      invariant ps == Oks(DatLine, lines[..i])
      invariant cores == Assign(ProbeNodes(ps), ProbeCores(ps))
      invariant mem == Assign(ProbeNodes(ps), ProbeMems(ps))
    {
      OksStep(DatLine, lines, i);
      var line := DatLine(lines[i]);
      if line.Ok? {
        var p := line.value;
        ProbesSnoc(ps, p);
        AssignSnoc(ProbeNodes(ps), ProbeCores(ps), p.node, p.cores);
        AssignSnoc(ProbeNodes(ps), ProbeMems(ps), p.node, p.mem);
        cores := cores[p.node := p.cores];
        mem := mem[p.node := p.mem];
        ps := ps + [p];
      } else {
        assert ps + [] == ps;
      }
    }
    assert lines[..|lines|] == lines;
  }

  /** Some well-formed line of the scratch file reports on `n`. */
  predicate Reported(dat: string, n: string)
  {
    var lines := FileLines(dat);
    exists i :: 0 <= i < |lines| && DatLine(lines[i]).Ok? && DatLine(lines[i]).value.node == n
  }

  /** Both dicts hold exactly the nodes of the well-formed lines. */
  lemma UsedKeys(dat: string)
    ensures forall n :: n in UsedCores(dat) <==> n in UsedMem(dat)
    ensures forall n :: n in UsedCores(dat) <==> Reported(dat, n)
  {
    var ps := ProbesOf(dat);
    var ns := ProbeNodes(ps);
    var lines := FileLines(dat);
    assert forall n :: n in UsedCores(dat) <==> n in ns by { AssignKeys(ns, ProbeCores(ps)); }
    assert forall n :: n in UsedMem(dat) <==> n in ns by { AssignKeys(ns, ProbeMems(ps)); }
    forall n ensures n in ns <==> Reported(dat, n) {
      if n in ns {
        var k :| 0 <= k < |ns| && ns[k] == n;
        ReportedFrom(dat, k);
      }
      if Reported(dat, n) {
        var i :| 0 <= i < |lines| && DatLine(lines[i]).Ok? && DatLine(lines[i]).value.node == n;
        ReportedIn(dat, i);
      }
    }
  }

  lemma ReportedFrom(dat: string, k: nat)
    requires k < |ProbesOf(dat)|
    ensures Reported(dat, ProbesOf(dat)[k].node)
  {
    OksSource(DatLine, FileLines(dat), k);
  }

  lemma ReportedIn(dat: string, i: nat)
    requires i < |FileLines(dat)| && DatLine(FileLines(dat)[i]).Ok?
    ensures DatLine(FileLines(dat)[i]).value.node in ProbeNodes(ProbesOf(dat))
  {
    OksMember(DatLine, FileLines(dat), i);
    var k :| 0 <= k < |ProbesOf(dat)| && ProbesOf(dat)[k] == DatLine(FileLines(dat)[i]).value;
    assert ProbeNodes(ProbesOf(dat))[k] == ProbesOf(dat)[k].node;
  }

  /** A node's two values come from the last report for it. */
  lemma UsedLast(dat: string, i: nat)
    requires i < |ProbesOf(dat)|
    requires forall j :: i < j < |ProbesOf(dat)| ==> ProbesOf(dat)[j].node != ProbesOf(dat)[i].node
    ensures var p := ProbesOf(dat)[i];
      p.node in UsedCores(dat) && UsedCores(dat)[p.node] == p.cores &&
      p.node in UsedMem(dat) && UsedMem(dat)[p.node] == p.mem
  {
    var ps := ProbesOf(dat);
    var ns := ProbeNodes(ps);
    assert forall j :: i < j < |ns| ==> ns[j] != ns[i];
    AssignLast(ns, ProbeCores(ps), i);
    AssignLast(ns, ProbeMems(ps), i);
  }

  // ------------------------------------------------------------ dashboard rows

  /** The text of a node whose cores probe gave `'None'`: a trailing
      suffix is split off, the rest looked up in `states` ("status unknown"
      when absent), and " and " added with `suffixes.get('suffix', 'N/A')`;
      without a trailing suffix the text stays empty. */
  function StatusText(status: string): string
    requires status != []
  {
    if [status[|status| - 1]] in Suffixes then
      Get(States, DropLast(status), "status unknown") + " and " + Get(Suffixes, "suffix", "N/A")
    else ""
  }

  /** `f"{node} is {text}."` */
  function StatusRow(node: string, status: string): string
    requires status != []
  {
    node + " is " + StatusText(status) + "."
  }

  /** The row of a node that answered its probes. */
  function DataRow(node: string, allocCores: string, usedCores: string,
                   allocMem: string, usedMem: string, totalMem: string): string
  {
    node + " " + allocCores + " " + RJust(usedCores, 10) + " | " + RJust(allocMem, 6) + "  "
    + RJust(usedMem, 6) + "  " + RJust(totalMem, 6) + " "
  }

  /** The row of one `sinfo` line once unpacked into its six fields, in
      the order the source evaluates them: `int(total)` and `int(free)`,
      then the core gauge `row(cores[0], true_cores)`, then `NodeRow`. */
  function InfoFields(node: string, free: string, total: string, status: string, trueCores: string,
                      cores: string, used: map<string, string>, mem: map<string, string>): Result<string>
  {
    match (ParseInt(total), ParseInt(free))
    case (Some(t), Some(f)) =>
      var allocCores :- Gauge(Text(SplitOn(cores, "/")[0]), Text(trueCores));
      NodeRow(node, status, allocCores, t, f, used, mem)
    case _ => Err(ValueError)
  }

  /** The rest of the row once the numbers and the core gauge are known:
      the two scratch-file lookups (`KeyError` for a node without a
      report), then the status row when the cores report is `'None'` and
      the data row otherwise, memory shown in rounded-up thousands. */
  function NodeRow(node: string, status: string, allocCores: string, total: int, free: int,
                   used: map<string, string>, mem: map<string, string>): Result<string>
  {
    var allocMem := IntToStr(CeilDiv(total - free, 1000));
    if node !in used || node !in mem then Err(KeyError)
    else
      var totalMem := IntToStr(CeilDiv(total, 1000));
      if used[node] == "None" then
        if status == [] then Err(IndexError) else Ok(StatusRow(node, status))
      else Ok(DataRow(node, allocCores, used[node], allocMem, mem[node], totalMem))
  }

  /** The stages of `InfoFields` for a line that gets a row. */
  lemma InfoFieldsSteps(node: string, free: string, total: string, status: string, trueCores: string,
                        cores: string, used: map<string, string>, mem: map<string, string>)
    requires InfoFields(node, free, total, status, trueCores, cores, used, mem).Ok?
    ensures ParseInt(total).Some? && ParseInt(free).Some?
    ensures Gauge(Text(SplitOn(cores, "/")[0]), Text(trueCores)).Ok?
    ensures InfoFields(node, free, total, status, trueCores, cores, used, mem) ==
      NodeRow(node, status, Gauge(Text(SplitOn(cores, "/")[0]), Text(trueCores)).value,
              ParseInt(total).value, ParseInt(free).value, used, mem)
  {
  }

  /** One `sinfo` line: six fields or `ValueError`. */
  function InfoRow(line: string, used: map<string, string>, mem: map<string, string>): Result<string>
  {
    var ws := Words(line);
    if |ws| != 6 then Err(ValueError) else InfoFields(ws[0], ws[1], ws[2], ws[3], ws[4], ws[5], used, mem)
  }

  /** `core_map_and_mem`: the rows of the lines that did not raise, in
      listing order; a line that raises is logged and skipped. */
  function InfoRows(lines: seq<string>, used: map<string, string>, mem: map<string, string>): seq<string>
  {
    Oks(RowOf(used, mem), lines)
  }

  /** `InfoRow` with the scratch-file dicts fixed. */
  function RowOf(used: map<string, string>, mem: map<string, string>): string -> Result<string>
  {
    (line: string) => InfoRow(line, used, mem)
  }

  /** `get_info`, given the `sinfo` listing and the scratch file the
      children wrote. */
  method GetInfo(sinfoOut: string, dat: string) returns (rows: seq<string>)
    ensures rows == InfoRows(Mapper.SinfoLines(sinfoOut), UsedCores(dat), UsedMem(dat))
  {
    var used, mem := ReadScratch(dat);
    var lines := Mapper.SinfoLines(sinfoOut);
    var f := RowOf(used, mem);
    rows := [];
    for i := 0 to |lines|
      invariant rows == Oks(f, lines[..i])
    {
      OksStep(f, lines, i);
      var row := f(lines[i]);
      if row.Ok? {
        rows := rows + [row.value];
      } else {
        assert rows + [] == rows;
      }
    }
    assert lines[..|lines|] == lines;
  }

  /** Only one-character keys are in `suffixes`, so the lookup of the
      literal key `'suffix'` always falls back to "N/A". */
  lemma SuffixLookupMisses()
    ensures "suffix" !in Suffixes
    ensures Get(Suffixes, "suffix", "N/A") == "N/A"
  {
    SuffixTable();
  }

  /** With a trailing suffix the text is the description of the rest of
      the state (or "status unknown") followed by " and N/A", whichever of
      the nine suffixes it was; without one it is empty. */
  lemma StatusTextSpec(status: string)
    requires status != []
    ensures status[|status| - 1 ..] in SuffixKeys ==>
      forall k :: 0 <= k < |StateKeys| && DropLast(status) == StateKeys[k] ==>
        StatusText(status) == StateValues[k] + " and N/A"
    ensures status[|status| - 1 ..] in SuffixKeys && DropLast(status) !in StateKeys ==>
      StatusText(status) == "status unknown and N/A"
    ensures status[|status| - 1 ..] !in SuffixKeys ==> StatusText(status) == ""
  {
    SuffixOfLast(status);
    SuffixLookupMisses();
    StateLookup(DropLast(status));
  }

  /** The lookup in `states`, position by position. */
  lemma StateLookup(base: string)
    ensures (base in States) == (base in StateKeys)
    ensures forall k :: 0 <= k < |StateKeys| && base == StateKeys[k] ==> States[base] == StateValues[k]
  {
    StateTable();
  }

  /** Two states that differ only in their suffix get the same text: the
      suffix's own description is never shown. */
  lemma SuffixIgnored(base: string, i: nat, j: nat)
    requires i < |SuffixKeys| && j < |SuffixKeys|
    ensures StatusText(base + SuffixKeys[i]) == StatusText(base + SuffixKeys[j])
  {
    SuffixKeysDistinct();
    var (s1, s2) := (base + SuffixKeys[i], base + SuffixKeys[j]);
    assert DropLast(s1) == base && s1[|s1| - 1 ..] == SuffixKeys[i];
    assert DropLast(s2) == base && s2[|s2| - 1 ..] == SuffixKeys[j];
    StatusTextSpec(s1);
    StatusTextSpec(s2);
  }

  /** The status row always holds the substring "is". */
  lemma StatusRowHasIs(node: string, status: string)
    requires status != []
    ensures Contains(StatusRow(node, status), "is")
  {
    var r := StatusRow(node, status);
    assert r[|node| + 1 .. |node| + 3] == "is";
    assert OccursAt(r, "is", |node| + 1);
  }

  lemma GapStep(a: string, gap: string, r: string, ws: seq<string>, w: string)
    requires gap != [] && forall j :: 0 <= j < |gap| ==> IsSpace(gap[j])
    requires Words(a) == ws && Words(r) == [w]
    ensures Words(a + gap + r) == ws + [w]
  {
    WordsGap(a, gap, r);
  }

  /** A bar between spaces is a word of its own. */
  lemma BarStep(a: string, r: string, ws: seq<string>, w: string)
    requires Words(a) == ws && Words(r) == [w]
    ensures Words(a + " | " + r) == ws + ["|", w]
  {
    BarText(a, r);
    WordsOne("|");
    WordsAround(a, "|", r);
    SnocPair(ws, "|", w);
  }

  lemma BarText(a: string, r: string)
    ensures a + " | " + r == a + [' '] + ("|" + [' '] + r)
  {
  }

  lemma SnocPair(ws: seq<string>, u: string, w: string)
    ensures ws + [u] + [w] == ws + [u, w]
  {
  }

  lemma Columns(a: string, b: string, c: string, d: string, e: string, f: string)
    ensures [a, b, c] + ["|", d] + [e] + [f] == [a, b, c, "|", d, e, f]
  {
  }

  predicate OneWord(w: string) { w != [] && NoSpace(w) }

  /** A data row splits into its seven columns: node, core gauge, used
      cores, `|`, then allocated, used and total memory. So
      `row.split()[2]`, which the colour rule reads, is the used cores. */
  lemma DataRowWords(node: string, allocCores: string, usedCores: string,
                     allocMem: string, usedMem: string, totalMem: string)
    requires OneWord(node) && OneWord(allocCores) && OneWord(usedCores)
    requires OneWord(allocMem) && OneWord(usedMem) && OneWord(totalMem)
    ensures Words(DataRow(node, allocCores, usedCores, allocMem, usedMem, totalMem))
            == [node, allocCores, usedCores, "|", allocMem, usedMem, totalMem]
  {
    var (r0, r1, r2, r3) := (RJust(usedCores, 10), RJust(allocMem, 6), RJust(usedMem, 6), RJust(totalMem, 6));
    RJustColumn(usedCores, 10);
    RJustColumn(allocMem, 6);
    RJustColumn(usedMem, 6);
    RJustColumn(totalMem, 6);
    CoreColumns(node, allocCores, r0, usedCores);
    MemColumns(node + " " + allocCores + " " + r0, [node, allocCores, usedCores], r1, r2, r3, allocMem, usedMem, totalMem);
    Columns(node, allocCores, usedCores, allocMem, usedMem, totalMem);
  }

  /** The node, core gauge and used cores columns. */
  lemma CoreColumns(node: string, allocCores: string, r: string, usedCores: string)
    requires OneWord(node) && OneWord(allocCores) && Words(r) == [usedCores]
    ensures Words(node + " " + allocCores + " " + r) == [node, allocCores, usedCores]
  {
    WordsPair(node, allocCores);
    GapStep(node + " " + allocCores, " ", r, [node, allocCores], usedCores);
    PairSnoc(node, allocCores, usedCores);
  }

  lemma PairSnoc(a: string, b: string, c: string)
    ensures [a, b] + [c] == [a, b, c]
  {
  }

  /** The bar and the three memory columns after the first columns. */
  lemma MemColumns(a: string, ws: seq<string>, r1: string, r2: string, r3: string,
                   allocMem: string, usedMem: string, totalMem: string)
    requires Words(a) == ws
    requires Words(r1) == [allocMem] && Words(r2) == [usedMem] && Words(r3) == [totalMem]
    ensures Words(a + " | " + r1 + "  " + r2 + "  " + r3 + " ") == ws + ["|", allocMem] + [usedMem] + [totalMem]
  {
    BarStep(a, r1, ws, allocMem);
    LastMemColumns(a + " | " + r1, ws + ["|", allocMem], r2, r3, usedMem, totalMem);
  }

  lemma LastMemColumns(a: string, ws: seq<string>, r2: string, r3: string, usedMem: string, totalMem: string)
    requires Words(a) == ws
    requires Words(r2) == [usedMem] && Words(r3) == [totalMem]
    ensures Words(a + "  " + r2 + "  " + r3 + " ") == ws + [usedMem] + [totalMem]
  {
    GapStep(a, "  ", r2, ws, usedMem);
    TotalColumn(a + "  " + r2, ws + [usedMem], r3, totalMem);
  }

  lemma TotalColumn(a: string, ws: seq<string>, r3: string, totalMem: string)
    requires Words(a) == ws && Words(r3) == [totalMem]
    ensures Words(a + "  " + r3 + " ") == ws + [totalMem]
  {
    GapStep(a, "  ", r3, ws, totalMem);
    WordsTrail(a + "  " + r3, ' ');
  }

  /** A right-justified word is one column. */
  lemma RJustColumn(w: string, width: int)
    requires OneWord(w)
    ensures Words(RJust(w, width)) == [w]
  {
    WordsRJust(w, width);
    WordsOne(w);
  }

  /** Which `sinfo` lines get a row, and which error skips the others, step
      by step in the order of the source: the six-field unpack and the two
      `int` calls raise `ValueError`, the core gauge raises its own error,
      and a node without a report raises `KeyError`. */
  lemma InfoRowSpec(line: string, used: map<string, string>, mem: map<string, string>)
    ensures var ws := Words(line);
      (|ws| != 6 ==> InfoRow(line, used, mem) == Err(ValueError)) &&
      (|ws| == 6 ==>
        var g := Gauge(Text(SplitOn(ws[5], "/")[0]), Text(ws[4]));
        (ParseInt(ws[2]).None? || ParseInt(ws[1]).None? ==> InfoRow(line, used, mem) == Err(ValueError)) &&
        (ParseInt(ws[2]).Some? && ParseInt(ws[1]).Some? ==>
          (g.Err? ==> InfoRow(line, used, mem) == Err(g.exc)) &&
          (g.Ok? && (ws[0] !in used || ws[0] !in mem) ==> InfoRow(line, used, mem) == Err(KeyError)) &&
          (g.Ok? && ws[0] in used && ws[0] in mem ==> InfoRow(line, used, mem).Ok?)))
  {
    WordsNonEmpty(line);
  }

  /** Which row a line gets: the status row, which names the node's state
      and holds "is", when its cores report is `'None'`; otherwise the data
      row, whose first word is the node and whose third word is the node's
      cores report, which is what the colour rule reads. */
  lemma InfoFieldsKind(node: string, free: string, total: string, status: string, trueCores: string,
                       cores: string, used: map<string, string>, mem: map<string, string>)
    requires InfoFields(node, free, total, status, trueCores, cores, used, mem).Ok?
    requires OneWord(node)
    ensures node in used && node in mem
    ensures var row := InfoFields(node, free, total, status, trueCores, cores, used, mem).value;
      (used[node] == "None" ==> status != [] && row == StatusRow(node, status) && Contains(row, "is")) &&
      (used[node] != "None" && OneWord(used[node]) && OneWord(mem[node]) ==>
        var ws := Words(row);
        |ws| == 7 && ws[0] == node && ws[2] == used[node] && ws[3] == "|" && ws[5] == mem[node])
  {
    InfoFieldsSteps(node, free, total, status, trueCores, cores, used, mem);
    var g := Gauge(Text(SplitOn(cores, "/")[0]), Text(trueCores));
    assert OneWord(g.value) by { DefaultRowWord(Text(SplitOn(cores, "/")[0]), Text(trueCores), DefaultScale); }
    NodeRowKind(node, status, g.value, ParseInt(total).value, ParseInt(free).value, used, mem);
  }

  lemma NodeRowKind(node: string, status: string, allocCores: string, total: int, free: int,
                    used: map<string, string>, mem: map<string, string>)
    requires NodeRow(node, status, allocCores, total, free, used, mem).Ok?
    requires OneWord(node) && OneWord(allocCores)
    ensures node in used && node in mem
    ensures var row := NodeRow(node, status, allocCores, total, free, used, mem).value;
      (used[node] == "None" ==> status != [] && row == StatusRow(node, status) && Contains(row, "is")) &&
      (used[node] != "None" && OneWord(used[node]) && OneWord(mem[node]) ==>
        var ws := Words(row);
        |ws| == 7 && ws[0] == node && ws[2] == used[node] && ws[3] == "|" && ws[5] == mem[node])
  {
    if used[node] == "None" {
      StatusRowHasIs(node, status);
    } else if OneWord(used[node]) && OneWord(mem[node]) {
      var (allocMem, totalMem) := (IntToStr(CeilDiv(total - free, 1000)), IntToStr(CeilDiv(total, 1000)));
      IntToStrWord(CeilDiv(total - free, 1000));
      IntToStrWord(CeilDiv(total, 1000));
      DataRowColumns(NodeRow(node, status, allocCores, total, free, used, mem).value,
                     node, allocCores, used[node], allocMem, mem[node], totalMem);
    }
  }

  lemma DataRowColumns(row: string, node: string, allocCores: string, usedCores: string,
                       allocMem: string, usedMem: string, totalMem: string)
    requires row == DataRow(node, allocCores, usedCores, allocMem, usedMem, totalMem)
    requires OneWord(node) && OneWord(allocCores) && OneWord(usedCores)
    requires OneWord(allocMem) && OneWord(usedMem) && OneWord(totalMem)
    ensures var ws := Words(row);
      |ws| == 7 && ws[0] == node && ws[2] == usedCores && ws[3] == "|" && ws[5] == usedMem
  {
    DataRowWords(node, allocCores, usedCores, allocMem, usedMem, totalMem);
    SevenAt(node, allocCores, usedCores, "|", allocMem, usedMem, totalMem);
  }

  lemma SevenAt<T>(a: T, b: T, c: T, d: T, e: T, f: T, g: T)
    ensures var s := [a, b, c, d, e, f, g];
      |s| == 7 && s[0] == a && s[2] == c && s[3] == d && s[5] == f
  {
  }

  /** `InfoFieldsKind` for a whole `sinfo` line. */
  lemma InfoRowKind(line: string, used: map<string, string>, mem: map<string, string>)
    requires InfoRow(line, used, mem).Ok?
    ensures |Words(line)| == 6
    ensures var ws := Words(line);
      InfoRow(line, used, mem) == InfoFields(ws[0], ws[1], ws[2], ws[3], ws[4], ws[5], used, mem) &&
      OneWord(ws[0]) && OneWord(ws[3])
  {
    WordsAreWords(line);
  }

  /** Every row comes from a line of the listing that did not raise, and
      every line that did not raise gives a row. */
  lemma InfoRowsSpec(lines: seq<string>, used: map<string, string>, mem: map<string, string>)
    ensures forall r :: r in InfoRows(lines, used, mem) <==>
      exists i :: 0 <= i < |lines| && RowOf(used, mem)(lines[i]).Ok? && RowOf(used, mem)(lines[i]).value == r
  {
    OksSpec(RowOf(used, mem), lines);
  }

  /** The rows of a concatenation are the rows of each part, in order:
      each line that does not raise gives exactly one row, in its place. */
  lemma InfoRowsConcat(a: seq<string>, b: seq<string>, used: map<string, string>, mem: map<string, string>)
    ensures InfoRows(a + b, used, mem) == InfoRows(a, used, mem) + InfoRows(b, used, mem)
  {
    OksConcat(RowOf(used, mem), a, b);
  }

  /** One line gives its row, or none when it raises. */
  lemma InfoRowsSingle(line: string, used: map<string, string>, mem: map<string, string>)
    ensures InfoRows([line], used, mem) ==
      if InfoRow(line, used, mem).Ok? then [InfoRow(line, used, mem).value] else []
  {
    OksSingle(RowOf(used, mem), line);
  }

  /** When no line raises there is one row per line, in listing order. */
  lemma InfoRowsAll(lines: seq<string>, used: map<string, string>, mem: map<string, string>)
    requires forall i :: 0 <= i < |lines| ==> RowOf(used, mem)(lines[i]).Ok?
    ensures |InfoRows(lines, used, mem)| == |lines|
    ensures forall i :: 0 <= i < |lines| ==> InfoRows(lines, used, mem)[i] == RowOf(used, mem)(lines[i]).value
  {
    OksAllOk(RowOf(used, mem), lines);
  }
}
