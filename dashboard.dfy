/** The curses screen of spydurview.py reduced to its decisions: how busy
    a node is (`how_busy`), the colour each row of the core map is painted
    in, and the `while running` loop of `map_cores` as a transition
    function over the keys it reads. The `sinfo` listing `how_busy` asks
    for is passed in as text; drawing is left to the caller. */
module Dashboard {
  import opened PyText
  import opened PyNum
  import opened PyCollections
  import Mapper
  import SpydurView

  // ---------------------------------------------------------------------
  // how_busy
  // ---------------------------------------------------------------------

  /** Python's `max(a, b)`: `a` unless `b` is larger. */
  function Max(a: real, b: real): (r: real)
    ensures r >= a && r >= b && (r == a || r == b)
  {
    if b > a then b else a
  }

  /** `int(cores.split('/')[0]) / int(true_cores)`, or `None` when either
      conversion raises or the divisor is zero. */
  function CoresBusy(cores: string, trueCores: string): Option<real>
  {
    match (ParseInt(SplitOn(cores, "/")[0]), ParseInt(trueCores))
    case (Some(a), Some(c)) => if c == 0 then None else Some(a as real / c as real)
    case _ => None
  }

  /** `(int(total) - int(free)) / int(total)`, or `None` when a conversion
      raises or the total is zero. */
  function MemBusy(free: string, total: string): Option<real>
  {
    match (ParseInt(total), ParseInt(free))
    case (Some(t), Some(f)) => if t == 0 then None else Some((t - f) as real / t as real)
    case _ => None
  }

  /** The value of `max(busy_cores, busy_mem)` once the matching line is
      found: both start at 0, `busy_cores` is set before the memory part
      runs, and whatever raises leaves the later one at 0. */
  function MatchBusy(free: string, total: string, trueCores: string, cores: string): real
  {
    match CoresBusy(cores, trueCores)
    case None => 0.0
    case Some(bc) =>
      match MemBusy(free, total)
      case None => Max(bc, 0.0)
      case Some(bm) => Max(bc, bm)
  }

  /** The loop over the listing's lines for node `n`: a line without six
      fields raises (caught, so the result is 0), the first line naming
      `n` decides, and no match leaves 0. */
  function BusyOf(lines: seq<string>, n: string): real
    decreases |lines|
  {
    if lines == [] then 0.0
    else
      var ws := Words(lines[0]);
      if |ws| != 6 then 0.0
      else if ws[0] == n then MatchBusy(ws[1], ws[2], ws[4], ws[5])
      else BusyOf(lines[1..], n)
  }

  /** `how_busy(row)`: the node is the first word of the row (an empty row
      raises `IndexError`, caught, giving 0), looked up in the lines of
      the `sinfo` listing `out` after its header. */
  function HowBusy(row: string, out: string): real
  {
    var ws := Words(row);
    if ws == [] then 0.0 else BusyOf(Mapper.SinfoLines(out), ws[0])
  }

  /** The six fields of a listing line, or none. */
  predicate Fields6(line: string) { |Words(line)| == 6 }

  /** A line with six fields that does not name `n`. */
  predicate Passes(line: string, n: string) {
    Fields6(line) && Words(line)[0] != n
  }

  /** `how_busy` as the source writes it: a loop over the listing that
      breaks at the first matching line or at the first exception. */
  method HowBusyLoop(row: string, out: string) returns (busy: real)
    ensures busy == HowBusy(row, out)
  {
    var busyCores := 0.0;
    var busyMem := 0.0;
    var names := Words(row);
    if names == [] {
      return Max(busyCores, busyMem);
    }
    var n := names[0];
    var lines := Mapper.SinfoLines(out);
    var i := 0;
    while i < |lines|
      invariant 0 <= i <= |lines|
      invariant BusyOf(lines[i..], n) == BusyOf(lines, n)
      invariant busyCores == 0.0 && busyMem == 0.0
    {
      var ws := Words(lines[i]);
      if |ws| != 6 {
        break;
      }
      if ws[0] == n {
        var bc := CoresBusy(ws[5], ws[4]);
        if bc.Some? {
          busyCores := bc.value;
          var bm := MemBusy(ws[1], ws[2]);
          if bm.Some? {
            busyMem := bm.value;
          }
        }
        break;
      }
      assert lines[i..][1..] == lines[i + 1..];
      i := i + 1;
    }
    busy := Max(busyCores, busyMem);
  }

  /** The first line naming the node decides, whatever follows it. */
  lemma {:induction false} BusyFirstMatch(lines: seq<string>, n: string, i: nat)
    requires i < |lines| && Fields6(lines[i]) && Words(lines[i])[0] == n
    requires forall j :: 0 <= j < i ==> Passes(lines[j], n)
    ensures var ws := Words(lines[i]); BusyOf(lines, n) == MatchBusy(ws[1], ws[2], ws[4], ws[5])
  {
    if i > 0 {
      BusyPass(lines, n);
      PassesTail(lines, n, i);
      assert lines[1..][i - 1] == lines[i];
      BusyFirstMatch(lines[1..], n, i - 1);
    }
  }

  /** A malformed line before any match ends the search with 0. */
  lemma {:induction false} BusyMalformed(lines: seq<string>, n: string, i: nat)
    requires i < |lines| && !Fields6(lines[i])
    requires forall j :: 0 <= j < i ==> Passes(lines[j], n)
    ensures BusyOf(lines, n) == 0.0
  {
    if i > 0 {
      BusyPass(lines, n);
      PassesTail(lines, n, i);
      assert lines[1..][i - 1] == lines[i];
      BusyMalformed(lines[1..], n, i - 1);
    }
  }

  /** A node no line names is not busy at all. */
  lemma {:induction false} BusyNoMatch(lines: seq<string>, n: string)
    requires forall j :: 0 <= j < |lines| ==> Passes(lines[j], n)
    ensures BusyOf(lines, n) == 0.0
  {
    if lines != [] {
      BusyPass(lines, n);
      PassesTail(lines, n, |lines|);
      BusyNoMatch(lines[1..], n);
    }
  }

  /** A line that passes hands the search on to the next one. */
  lemma BusyPass(lines: seq<string>, n: string)
    requires lines != [] && Passes(lines[0], n)
    ensures BusyOf(lines, n) == BusyOf(lines[1..], n)
  {
  }

  lemma PassesTail(lines: seq<string>, n: string, i: nat)
    requires 0 < i <= |lines| && forall j :: 0 <= j < i ==> Passes(lines[j], n)
    ensures Passes(lines[0], n) && forall j :: 0 <= j < i - 1 ==> Passes(lines[1..][j], n)
  {
    forall j | 0 <= j < i - 1 ensures Passes(lines[1..][j], n) {
      assert lines[1..][j] == lines[j + 1];
    }
  }

  /** The 0.75 threshold in whole numbers: with every field numeric and
      both divisors positive, the node is at least three quarters busy
      exactly when its allocated cores or its used memory reach three
      quarters of the whole. */
  lemma BusyThreshold(free: string, total: string, trueCores: string, cores: string,
                      a: int, c: int, f: int, t: int)
    requires ParseInt(SplitOn(cores, "/")[0]) == Some(a) && ParseInt(trueCores) == Some(c)
    requires ParseInt(total) == Some(t) && ParseInt(free) == Some(f)
    requires c > 0 && t > 0
    ensures MatchBusy(free, total, trueCores, cores) >= 0.75 <==> 4 * a >= 3 * c || 4 * (t - f) >= 3 * t
  {
    CoresBusyOf(cores, trueCores, a, c);
    MemBusyOf(free, total, f, t);
    var (bc, bm) := (a as real / c as real, (t - f) as real / t as real);
    BothBusy(free, total, trueCores, cores, bc, bm);
    MaxAtLeast(bc, bm, 0.75);
    QuarterRatio(a, c);
    QuarterRatio(t - f, t);
  }

  lemma MaxAtLeast(a: real, b: real, k: real)
    ensures Max(a, b) >= k <==> a >= k || b >= k
  {
  }

  lemma CoresBusyOf(cores: string, trueCores: string, a: int, c: int)
    requires ParseInt(SplitOn(cores, "/")[0]) == Some(a) && ParseInt(trueCores) == Some(c) && c != 0
    ensures CoresBusy(cores, trueCores) == Some(a as real / c as real)
  {
  }

  lemma MemBusyOf(free: string, total: string, f: int, t: int)
    requires ParseInt(total) == Some(t) && ParseInt(free) == Some(f) && t != 0
    ensures MemBusy(free, total) == Some((t - f) as real / t as real)
  {
  }

  lemma BothBusy(free: string, total: string, trueCores: string, cores: string, bc: real, bm: real)
    requires CoresBusy(cores, trueCores) == Some(bc) && MemBusy(free, total) == Some(bm)
    ensures MatchBusy(free, total, trueCores, cores) == Max(bc, bm)
  {
  }

  /** When the memory fields raise (or the total is zero) only the cores
      count. */
  lemma BusyCoresOnly(free: string, total: string, trueCores: string, cores: string, a: int, c: int)
    requires ParseInt(SplitOn(cores, "/")[0]) == Some(a) && ParseInt(trueCores) == Some(c)
    requires c > 0 && MemBusy(free, total).None?
    ensures MatchBusy(free, total, trueCores, cores) >= 0.75 <==> 4 * a >= 3 * c
  {
    CoresBusyOf(cores, trueCores, a, c);
    QuarterRatio(a, c);
  }

  /** When the cores fields raise (or the core count is zero) the memory
      part never runs, so the node counts as idle. */
  lemma BusyCoresRaise(free: string, total: string, trueCores: string, cores: string)
    requires CoresBusy(cores, trueCores).None?
    ensures MatchBusy(free, total, trueCores, cores) == 0.0
  {
  }

  lemma QuarterRatio(x: int, y: int)
    requires y > 0
    ensures x as real / y as real >= 0.75 <==> 4 * x >= 3 * y
  {
    var q := x as real / y as real;
    assert q * y as real == x as real;
    if 4 * x >= 3 * y {
      assert q * (4 * y) as real >= (3 * y) as real;
    }
  }

  // ---------------------------------------------------------------------
  // The colour band
  // ---------------------------------------------------------------------

  datatype Colour = Red | Yellow | Green

  /** The colour of one row of the core map, first rule first: a row
      holding "is" (a status row) is red; otherwise the third word is read
      as a float (`IndexError` below three words, `ValueError` when it is
      not a float) and a value above 52 is red; then a node at least three
      quarters busy is yellow, and every other row green. */
  function ColourOf(row: string, out: string): Result<Colour>
  {
    if Contains(row, "is") then Ok(Red)
    else
      var ws := Words(row);
      if |ws| < 3 then Err(IndexError)
      else
        match ParseFloat(ws[2])
        case None => Err(ValueError)
        case Some(x) =>
          if Greater(x, 52.0) then Ok(Red)
          else if HowBusy(row, out) >= 0.75 then Ok(Yellow)
          else Ok(Green)
  }

  /** `ColourOf` with the listing fixed. */
  function ColourFor(out: string): string -> Result<Colour>
  {
    (row: string) => ColourOf(row, out)
  }

  /** The rows painted in one pass of the main screen, with their colours:
      rows in order until one raises; the `try` around the loop then
      abandons the rest of the pass. */
  function Painted(rows: seq<string>, colour: string -> Result<Colour>): seq<(string, Colour)>
    decreases |rows|
  {
    if rows == [] then []
    else
      match colour(rows[0])
      case Err(_) => []
      case Ok(c) => [(rows[0], c)] + Painted(rows[1..], colour)
  }

  /** The painting loop of `map_cores` over `sorted(info)`. */
  method Paint(info: seq<string>, out: string) returns (painted: seq<(string, Colour)>)
    ensures painted == Painted(Sort(info), ColourFor(out))
  {
    var rows := Sort(info);
    var colourOf := ColourFor(out);
    painted := [];
    var idx := 0;
    while idx < |rows|
      invariant 0 <= idx <= |rows|
      invariant painted + Painted(rows[idx..], colourOf) == Painted(rows, colourOf)
    {
      var colour := colourOf(rows[idx]);
      if colour.Err? {
        assert painted + [] == painted;
        break;
      }
      assert rows[idx..][1..] == rows[idx + 1..];
      painted := painted + [(rows[idx], colour.value)];
      idx := idx + 1;
    }
    if idx == |rows| {
      assert painted + [] == painted;
    }
  }

  /** What a pass paints: a leading run of the rows, each with the colour
      the rule gives it, stopping only at a row whose colour raises. */
  lemma {:induction false} PaintedSpec(rows: seq<string>, colour: string -> Result<Colour>)
    ensures |Painted(rows, colour)| <= |rows|
    ensures forall i :: 0 <= i < |Painted(rows, colour)| ==>
      colour(rows[i]).Ok? && Painted(rows, colour)[i] == (rows[i], colour(rows[i]).value)
    ensures |Painted(rows, colour)| < |rows| ==> colour(rows[|Painted(rows, colour)|]).Err?
    decreases |rows|
  {
    if rows != [] && colour(rows[0]).Ok? {
      PaintedSpec(rows[1..], colour);
      var p := Painted(rows, colour);
      assert p == [(rows[0], colour(rows[0]).value)] + Painted(rows[1..], colour);
      forall i | 0 < i < |p|
        ensures colour(rows[i]).Ok? && p[i] == (rows[i], colour(rows[i]).value)
      {
        assert rows[1..][i - 1] == rows[i];
      }
      if |p| < |rows| {
        assert rows[1..][|p| - 1] == rows[|p|];
      }
    }
  }

  /** A status row is always red. */
  lemma StatusRowRed(node: string, status: string, out: string)
    requires status != []
    ensures ColourOf(SpydurView.StatusRow(node, status), out) == Ok(Red)
  {
    SpydurView.StatusRowHasIs(node, status);
  }

  /** The rule on a data row: its third word is the used-cores figure and
      its first the node name, so the row is red above 52 used cores and
      otherwise yellow exactly when the node's line in the listing makes
      it at least three quarters busy. */
  lemma DataRowColour(row: string, node: string, usedCores: string, out: string)
    requires !Contains(row, "is")
    requires |Words(row)| >= 3 && Words(row)[0] == node && Words(row)[2] == usedCores
    ensures ParseFloat(usedCores).None? ==> ColourOf(row, out) == Err(ValueError)
    ensures ParseFloat(usedCores).Some? ==>
      ColourOf(row, out) ==
        if Greater(ParseFloat(usedCores).value, 52.0) then Ok(Red)
        else if BusyOf(Mapper.SinfoLines(out), node) >= 0.75 then Ok(Yellow)
        else Ok(Green)
  {
  }

  /** The colours of the rows `get_info` builds: the row of a node whose
      cores probe gave `'None'` is red, and the row of any other node
      follows the rule on its used-cores figure and on its own line of the
      listing. */
  lemma InfoRowColour(line: string, used: map<string, string>, mem: map<string, string>, out: string)
    requires SpydurView.RowOf(used, mem)(line).Ok?
    ensures var ws := Words(line); var row := SpydurView.RowOf(used, mem)(line).value;
      |ws| == 6 && ws[0] in used && ws[0] in mem &&
      (used[ws[0]] == "None" ==> ColourOf(row, out) == Ok(Red)) &&
      (used[ws[0]] != "None" && SpydurView.OneWord(used[ws[0]]) && SpydurView.OneWord(mem[ws[0]])
       && !Contains(row, "is") && ParseFloat(used[ws[0]]).Some? ==>
         ColourOf(row, out) ==
           if Greater(ParseFloat(used[ws[0]]).value, 52.0) then Ok(Red)
           else if BusyOf(Mapper.SinfoLines(out), ws[0]) >= 0.75 then Ok(Yellow)
           else Ok(Green))
  {
    SpydurView.InfoRowKind(line, used, mem);
    var ws := Words(line);
    SpydurView.InfoFieldsKind(ws[0], ws[1], ws[2], ws[3], ws[4], ws[5], used, mem);
    var row := SpydurView.RowOf(used, mem)(line).value;
    if used[ws[0]] == "None" {
      assert Contains(row, "is");
    } else if SpydurView.OneWord(used[ws[0]]) && SpydurView.OneWord(mem[ws[0]]) && !Contains(row, "is") {
      DataRowColour(row, ws[0], used[ws[0]], out);
    }
  }

  /** A row that is not a status row and has fewer than three words stops
      the pass with `IndexError`. */
  lemma ShortRowRaises(row: string, out: string)
    requires !Contains(row, "is") && |Words(row)| < 3
    ensures ColourOf(row, out) == Err(IndexError)
  {
  }

  // ---------------------------------------------------------------------
  // The key loop
  // ---------------------------------------------------------------------

  /** What `getch` returns: -1 when the refresh timeout passes, the
      resize pseudo-key, or a key press. */
  datatype Key = NoKey | Resize | Press(c: char)

  /** The flags of the `while running` loop. */
  datatype Mode = Mode(helpUp: bool, running: bool)

  /** `help_win_up = False`, `running = True`. */
  const Start: Mode := Mode(false, true)

  /** The read of `window2.getch()` at the end of every pass: `q` stops
      the loop, `h` raises the help panel, anything else (a timeout, a
      resize, another key) changes nothing. */
  function MainRead(m: Mode, k: Key): (r: Mode)
  {
    if k == Press('q') then m.(running := false)
    else if k == Press('h') then m.(helpUp := true)
    else m
  }

  /** The loop from mode `m` over the keys still to be read. With the help
      panel up, the pass reads a key from the help window first: `b`
      returns to the main screen and `continue`s, skipping the main read;
      any other key falls through to the main read. The model stops when
      the keys run out. */
  function Run(m: Mode, keys: seq<Key>): Mode
    decreases |keys|
  {
    if !m.running || keys == [] then m
    else if m.helpUp then
      if keys[0] == Press('b') then Run(m.(helpUp := false), keys[1..])
      else if |keys| == 1 then m
      else Run(MainRead(m, keys[1]), keys[2..])
    else Run(MainRead(m, keys[0]), keys[1..])
  }

  /** The `while running` loop of `map_cores`. */
  method MapCores(keys: seq<Key>) returns (final: Mode)
    ensures final == Run(Start, keys)
  {
    var running := true;
    var helpWinUp := false;
    var i := 0;
    while running
      invariant 0 <= i <= |keys|
      invariant Run(Mode(helpWinUp, running), keys[i..]) == Run(Start, keys)
      decreases |keys| - i
    {
      if i == |keys| {
        break;
      }
      if helpWinUp {
        var ch := keys[i];
        assert keys[i..][1..] == keys[i + 1..];
        i := i + 1;
        if ch == Press('b') {
          helpWinUp := false;
          continue;
        }
        if i == |keys| {
          break;
        }
      }
      var k := keys[i];
      assert keys[i..][1..] == keys[i + 1..];
      i := i + 1;
      if k == Press('q') {
        running := false;
      } else if k == Press('h') {
        helpWinUp := true;
      }
    }
    final := Mode(helpWinUp, running);
  }

  /** `q` on the main screen ends the loop at once. */
  lemma QuitAtMain(keys: seq<Key>)
    ensures Run(Start, [Press('q')] + keys) == Mode(false, false)
  {
  }

  /** `h` then `b` returns to the main screen as if neither was pressed. */
  lemma HelpAndBack(keys: seq<Key>)
    ensures Run(Start, [Press('h'), Press('b')] + keys) == Run(Start, keys)
  {
    assert ([Press('h'), Press('b')] + keys)[1..][1..] == keys;
  }

  /** With the help panel up, a key other than `b` is taken by the help
      window and the next key is read by the main window, so a `q` there
      still quits while a `q` read by the help window does not. */
  lemma HelpFallThrough(k: Key, keys: seq<Key>)
    requires k != Press('b')
    ensures Run(Mode(true, true), [k, Press('q')] + keys) == Mode(true, false)
    ensures Run(Mode(true, true), [Press('q'), k] + keys) == Run(MainRead(Mode(true, true), k), keys)
  {
    assert ([k, Press('q')] + keys)[2..] == keys;
    assert ([Press('q'), k] + keys)[2..] == keys;
  }

  /** Keys other than `q` and `h` leave the main screen running. */
  lemma {:induction false} NeutralKeys(keys: seq<Key>)
    requires forall i :: 0 <= i < |keys| ==> keys[i] != Press('q') && keys[i] != Press('h')
    ensures Run(Start, keys) == Start
    decreases |keys|
  {
    if keys != [] {
      assert MainRead(Start, keys[0]) == Start;
      NeutralKeys(keys[1..]);
    }
  }

  /** The loop stops only on a `q`: a run that ends stopped read one. */
  lemma {:induction false} StopsOnlyOnQ(m: Mode, keys: seq<Key>)
    requires m.running && !Run(m, keys).running
    ensures Press('q') in keys
    decreases |keys|
  {
    if m.helpUp {
      if keys[0] == Press('b') {
        StopsOnlyOnQ(m.(helpUp := false), keys[1..]);
      } else if MainRead(m, keys[1]).running {
        StopsOnlyOnQ(MainRead(m, keys[1]), keys[2..]);
        assert keys[2..][1..] == keys[3..];
        assert Press('q') in keys[2..];
      } else {
        assert keys[1] == Press('q');
      }
    } else if MainRead(m, keys[0]).running {
      StopsOnlyOnQ(MainRead(m, keys[0]), keys[1..]);
    } else {
      assert keys[0] == Press('q');
    }
  }
}
