/** The parsing half of `get_supported_libraries` in `src/thumbtack/utils.py`: the
    output of `imount --check`, one report per line, becomes a map from library name
    to whether it is installed. Running the command is not modelled; its output is
    the input here. */
module LibraryCheck {
  import opened Wrappers
  import opened Text

  /** What one output line contributes. */
  datatype LineVerdict =
    | Skip                                   // no `INSTALLED`/`MISSING` token
    | Library(name: string, installed: bool) // `name` is the second token
    | Malformed                              // a lone marker token: `line_split[1]` raises `IndexError`

  predicate HasMarker(tokens: seq<string>) {
    "MISSING" in tokens || "INSTALLED" in tokens
  }

  /** The body of the loop over lines: a line with a marker token anywhere reports the
      library named by its second token, installed exactly when the first token is
      `INSTALLED`. */
  function ParseCheckLine(line: string): (v: LineVerdict)
    ensures v.Skip? <==> !HasMarker(Words(line))
    ensures v.Malformed? <==> HasMarker(Words(line)) && |Words(line)| < 2
    ensures v.Library? ==> v.name == Words(line)[1] && (v.installed <==> Words(line)[0] == "INSTALLED")
  {
    var tokens := Words(line);
    if |tokens| > 0 && HasMarker(tokens) then
      if |tokens| < 2 then Malformed
      else Library(tokens[1], tokens[0] == "INSTALLED")
    else Skip
  }

  /** The map built from `lines` on top of `acc`, or `None` once a line raises. */
  function Collect(lines: seq<string>, acc: map<string, bool>): (r: Option<map<string, bool>>)
    ensures r.Some? ==> acc.Keys <= r.value.Keys
  {
    if lines == [] then Some(acc)
    else match ParseCheckLine(lines[0])
      case Skip => Collect(lines[1..], acc)
      case Malformed => None
      case Library(name, installed) => Collect(lines[1..], acc[name := installed])
  }

  /** `get_supported_libraries` after the command has run: splits the output on line
      feeds and fills the map line by line. */
  method SupportedLibraries(output: string) returns (r: Option<map<string, bool>>)
    ensures r == Collect(SplitOn(output, '\n'), map[])
  {
    var lines := SplitOn(output, '\n');
    var acc: map<string, bool> := map[];
    var i := 0;
    while i < |lines|
      invariant 0 <= i <= |lines|
      invariant Collect(lines, map[]) == Collect(lines[i..], acc)
    {
      assert lines[i..][1..] == lines[i + 1..];
      match ParseCheckLine(lines[i]) {
        case Skip =>
        case Malformed =>
          return None;
        case Library(name, installed) =>
          acc := acc[name := installed];
      }
      i := i + 1;
    }
    return Some(acc);
  }

  /** The index of the last line at or after `from` that reports library `name`. */
  predicate LastReport(lines: seq<string>, name: string, i: int) {
    && 0 <= i < |lines|
    && ParseCheckLine(lines[i]).Library? && ParseCheckLine(lines[i]).name == name
    && forall j :: i < j < |lines| ==> !(ParseCheckLine(lines[j]).Library? && ParseCheckLine(lines[j]).name == name)
  }

  /** The output parses exactly when no line holds a marker token alone. */
  lemma {:induction false} CollectFailsIffMalformed(lines: seq<string>, acc: map<string, bool>)
    ensures Collect(lines, acc).None? <==> exists i :: 0 <= i < |lines| && ParseCheckLine(lines[i]).Malformed?
  {
    if lines != [] {
      CollectFailsIffMalformed(lines[1..], acc);
      match ParseCheckLine(lines[0])
      case Skip =>
        ShiftExists(lines);
      case Malformed =>
      case Library(name, installed) =>
        CollectFailsIffMalformed(lines[1..], acc[name := installed]);
        ShiftExists(lines);
    }
  }

  lemma ShiftExists(lines: seq<string>)
    requires lines != [] && !ParseCheckLine(lines[0]).Malformed?
    ensures (exists i :: 0 <= i < |lines| && ParseCheckLine(lines[i]).Malformed?) <==>
      (exists i :: 0 <= i < |lines[1..]| && ParseCheckLine(lines[1..][i]).Malformed?)
  {
    if i :| 0 <= i < |lines| && ParseCheckLine(lines[i]).Malformed? {
      assert lines[1..][i - 1] == lines[i];
    }
  }

  /** When the output parses, a later line overrides an earlier one: a library that
      some line reports gets the verdict of the last line that names it. */
  lemma {:induction false} CollectLastWins(lines: seq<string>, acc: map<string, bool>, name: string, i: int)
    requires Collect(lines, acc).Some? && LastReport(lines, name, i)
    ensures name in Collect(lines, acc).value
    ensures Collect(lines, acc).value[name] == ParseCheckLine(lines[i]).installed
  {
    LastReportShift(lines, name);
    var v := ParseCheckLine(lines[0]);
    if i > 0 {
      match v
      case Skip => CollectLastWins(lines[1..], acc, name, i - 1);
      case Library(n, b) => CollectLastWins(lines[1..], acc[n := b], name, i - 1);
    } else {
      KeptUnreported(lines[1..], acc[name := v.installed], name);
    }
  }

  /** A library no line reports keeps the value it had before the lines were read. */
  lemma {:induction false} KeptUnreported(lines: seq<string>, acc: map<string, bool>, name: string)
    requires Collect(lines, acc).Some? && forall i :: !LastReport(lines, name, i)
    ensures name in Collect(lines, acc).value <==> name in acc
    ensures name in acc ==> Collect(lines, acc).value[name] == acc[name]
  {
    if lines != [] {
      LastReportShift(lines, name);
      forall k | 0 <= k < |lines| - 1
        ensures !LastReport(lines[1..], name, k)
      {
        assert !LastReport(lines, name, k + 1);
      }
      match ParseCheckLine(lines[0])
      case Skip => KeptUnreported(lines[1..], acc, name);
      case Library(n, b) => KeptUnreported(lines[1..], acc[n := b], name);
    }
  }

  /** Every library in the map was there before or is reported by some line. */
  lemma {:induction false} CollectOnlyReported(lines: seq<string>, acc: map<string, bool>, name: string)
    requires Collect(lines, acc).Some? && name in Collect(lines, acc).value
    ensures name in acc || exists i :: LastReport(lines, name, i)
  {
    if !(name in acc) && forall i :: !LastReport(lines, name, i) {
      KeptUnreported(lines, acc, name);
    }
  }

  /** The last report in `lines` is the last report in its tail, or the first line when
      the tail has none. */
  lemma LastReportShift(lines: seq<string>, name: string)
    requires lines != []
    ensures forall i :: 1 <= i < |lines| ==> (LastReport(lines, name, i) <==> LastReport(lines[1..], name, i - 1))
    ensures LastReport(lines, name, 0) <==>
      ParseCheckLine(lines[0]).Library? && ParseCheckLine(lines[0]).name == name &&
      forall k :: !LastReport(lines[1..], name, k)
  {
    var rest := lines[1..];
    forall i | 1 <= i < |lines|
      ensures LastReport(lines, name, i) <==> LastReport(rest, name, i - 1)
    {
      assert forall j :: i < j < |lines| ==> rest[j - 1] == lines[j];
      assert forall j :: i - 1 < j < |rest| ==> rest[j] == lines[j + 1];
    }
    if ParseCheckLine(lines[0]).Library? && ParseCheckLine(lines[0]).name == name {
      if k :| LastReport(rest, name, k) {
        assert lines[k + 1] == rest[k];
      }
      if !LastReport(lines, name, 0) {
        var j :| 0 < j < |lines| && ParseCheckLine(lines[j]).Library? && ParseCheckLine(lines[j]).name == name;
        LastExists(rest, name, j - 1);
      }
    }
  }

  /** Some line reporting `name` means there is a last one. */
  lemma LastExists(lines: seq<string>, name: string, j: int)
    requires 0 <= j < |lines| && ParseCheckLine(lines[j]).Library? && ParseCheckLine(lines[j]).name == name
    ensures exists i :: LastReport(lines, name, i)
    decreases |lines| - j
  {
    if !LastReport(lines, name, j) {
      var k :| j < k < |lines| && ParseCheckLine(lines[k]).Library? && ParseCheckLine(lines[k]).name == name;
      LastExists(lines, name, k);
    }
  }
}
