/**
 * The edge-list file written for each seed: one line per edge,
 * `"{i+1}\t{j+1}\t1\n"`, into a file named `seed=NN.edges`.
 *
 * `ParseEdgeFile` reads such a text back; it is the partner the round-trip
 * lemmas use to pin down what the writer produces.
 */
module EdgeFile {
  import opened Wrappers
  import opened Decimal
  import opened PyStr
  import NetworkGenerator

  type Edge = NetworkGenerator.Edge

  /** `'seed={:02d}' + suffix`: the per-seed file names of both scripts. */
  function SeedFileName(seed: nat, suffix: string): string
  {
    "seed=" + ZeroPad2(seed) + suffix
  }

  /** The seed a per-seed file name carries, if it has the expected prefix and suffix. */
  function SeedOfFileName(name: string, suffix: string): Option<nat>
  {
    if |name| >= 5 + |suffix| && name[..5] == "seed=" && name[|name| - |suffix|..] == suffix then
      ParseNat(name[5..|name| - |suffix|])
    else None
  }

  /** The seed can be read back from the file name, so distinct seeds get distinct files. */
  lemma SeedFileNameRoundTrip(seed: nat, suffix: string)
    ensures SeedOfFileName(SeedFileName(seed, suffix), suffix) == Some(seed)
  {
    var name := SeedFileName(seed, suffix);
    var pad := ZeroPad2(seed);
    assert name[..5] == "seed=";
    assert name[|name| - |suffix|..] == suffix;
    assert name[5..|name| - |suffix|] == pad;
    if seed < 10 {
      assert pad == ['0'] + [DigitChar(seed)];
      DigitsValueAppend(['0'], DigitChar(seed));
      assert ['0'][..0] == [];
    } else {
      ParseNatToString(seed);
    }
  }

  lemma SeedFileNamesDistinct(s1: nat, s2: nat, suffix: string)
    requires s1 != s2
    ensures SeedFileName(s1, suffix) != SeedFileName(s2, suffix)
  {
    SeedFileNameRoundTrip(s1, suffix);
    SeedFileNameRoundTrip(s2, suffix);
  }

  /** One edge, 1-indexed, with weight 1, without its line break. */
  function EdgeLine(e: Edge): string
  {
    NatToString(e.0 + 1) + "\t" + NatToString(e.1 + 1) + "\t1"
  }

  /** The whole file: every edge's line followed by a line break, in list order. */
  function EdgeFileText(edges: seq<Edge>): string
  {
    if edges == [] then "" else EdgeLine(edges[0]) + "\n" + EdgeFileText(edges[1..])
  }

  function EdgeLines(edges: seq<Edge>): (lines: seq<string>)
    ensures |lines| == |edges|
  {
    if edges == [] then [] else [EdgeLine(edges[0])] + EdgeLines(edges[1..])
  }

  /** Reads one line `a\tb\t1` back into the 0-indexed edge (a-1, b-1). */
  function ParseEdgeLine(line: string): Option<Edge>
  {
    var fields := SplitOn(line, '\t');
    if |fields| != 3 || fields[2] != "1" then None
    else
      match (ParseNat(fields[0]), ParseNat(fields[1]))
      case (Some(a), Some(b)) => if a >= 1 && b >= 1 then Some((a - 1, b - 1)) else None
      case _ => None
  }

  function ParseEdgeLines(lines: seq<string>): Option<seq<Edge>>
  {
    if lines == [] then Some([])
    else
      match (ParseEdgeLine(lines[0]), ParseEdgeLines(lines[1..]))
      case (Some(e), Some(rest)) => Some([e] + rest)
      case _ => None
  }

  /** Reads a file text: lines ended by line breaks, each holding one edge. */
  function ParseEdgeFile(text: string): Option<seq<Edge>>
  {
    var lines := SplitOn(text, '\n');
    if lines[|lines| - 1] != "" then None else ParseEdgeLines(lines[..|lines| - 1])
  }

  lemma DigitsHaveNoBreak(s: string, c: char)
    requires AllDigits(s) && !IsDigit(c)
    ensures HasNoChar(s, c)
  {
  }

  lemma EdgeLineHasNoBreak(e: Edge)
    ensures HasNoChar(EdgeLine(e), '\n')
  {
    var a, b := NatToString(e.0 + 1), NatToString(e.1 + 1);
    DigitsHaveNoBreak(a, '\n');
    DigitsHaveNoBreak(b, '\n');
    var line := EdgeLine(e);
    forall i | 0 <= i < |line| ensures line[i] != '\n' {
      if i < |a| {
        assert line[i] == a[i];
      } else if i == |a| {
        assert line[i] == '\t';
      } else if i < |a| + 1 + |b| {
        assert line[i] == b[i - |a| - 1];
      }
    }
  }

  /** Each written line reads back as the edge it was written for. */
  lemma EdgeLineRoundTrip(e: Edge)
    ensures ParseEdgeLine(EdgeLine(e)) == Some(e)
  {
    var a, b := NatToString(e.0 + 1), NatToString(e.1 + 1);
    DigitsHaveNoBreak(a, '\t');
    DigitsHaveNoBreak(b, '\t');
    assert EdgeLine(e) == a + ['\t'] + (b + ['\t'] + "1");
    SplitOnPiece(a, '\t', b + ['\t'] + "1");
    SplitOnPiece(b, '\t', "1");
    SplitOnNoSeparator("1", '\t');
    ParseNatToString(e.0 + 1);
    ParseNatToString(e.1 + 1);
  }

  /** Splitting the file at line breaks gives exactly the edge lines, in order, then "". */
  lemma {:induction false} EdgeFileLines(edges: seq<Edge>)
    ensures SplitOn(EdgeFileText(edges), '\n') == EdgeLines(edges) + [""]
    decreases |edges|
  {
    if edges != [] {
      EdgeLineHasNoBreak(edges[0]);
      EdgeFileLines(edges[1..]);
      SplitOnPiece(EdgeLine(edges[0]), '\n', EdgeFileText(edges[1..]));
    }
  }

  lemma {:induction false} EdgeLinesRoundTrip(edges: seq<Edge>)
    ensures ParseEdgeLines(EdgeLines(edges)) == Some(edges)
    decreases |edges|
  {
    if edges != [] {
      EdgeLineRoundTrip(edges[0]);
      EdgeLinesRoundTrip(edges[1..]);
      assert EdgeLines(edges)[1..] == EdgeLines(edges[1..]);
      assert [edges[0]] + edges[1..] == edges;
    }
  }

  /** Reading the written file gives back the edge list, in the order it was written. */
  lemma EdgeFileRoundTrip(edges: seq<Edge>)
    ensures ParseEdgeFile(EdgeFileText(edges)) == Some(edges)
  {
    EdgeFileLines(edges);
    var lines := EdgeLines(edges) + [""];
    assert lines[..|lines| - 1] == EdgeLines(edges);
    EdgeLinesRoundTrip(edges);
  }

  function CountChar(s: string, c: char): nat
  {
    if s == [] then 0 else (if s[0] == c then 1 else 0) + CountChar(s[1..], c)
  }

  lemma {:induction false} CountCharAppend(a: string, b: string, c: char)
    ensures CountChar(a + b, c) == CountChar(a, c) + CountChar(b, c)
    decreases |a|
  {
    if a != [] {
      assert (a + b)[1..] == a[1..] + b;
      CountCharAppend(a[1..], b, c);
    } else {
      assert a + b == b;
    }
  }

  lemma {:induction false} CountCharAbsent(s: string, c: char)
    requires HasNoChar(s, c)
    ensures CountChar(s, c) == 0
    decreases |s|
  {
    if s != [] {
      CountCharAbsent(s[1..], c);
    }
  }

  /** The file has exactly one line break per edge. */
  lemma {:induction false} EdgeFileLineCount(edges: seq<Edge>)
    ensures CountChar(EdgeFileText(edges), '\n') == |edges|
    decreases |edges|
  {
    if edges != [] {
      EdgeFileLineCount(edges[1..]);
      EdgeLineHasNoBreak(edges[0]);
      CountCharAbsent(EdgeLine(edges[0]), '\n');
      CountCharAppend(EdgeLine(edges[0]), "\n", '\n');
      CountCharAppend(EdgeLine(edges[0]) + "\n", EdgeFileText(edges[1..]), '\n');
    }
  }

  lemma {:induction false} EdgeFileTextAppend(edges: seq<Edge>, e: Edge)
    ensures EdgeFileText(edges + [e]) == EdgeFileText(edges) + EdgeLine(e) + "\n"
    decreases |edges|
  {
    if edges == [] {
      assert edges + [e] == [e];
    } else {
      assert (edges + [e])[1..] == edges[1..] + [e];
      EdgeFileTextAppend(edges[1..], e);
    }
  }

  /**
   * What the written text promises: it reads back as the edge list, it has one
   * line break per edge, and its lines are the edge lines in list order.
   */
  lemma EdgeFileFormat(edges: seq<Edge>)
    ensures ParseEdgeFile(EdgeFileText(edges)) == Some(edges)
    ensures CountChar(EdgeFileText(edges), '\n') == |edges|
    ensures SplitOn(EdgeFileText(edges), '\n') == EdgeLines(edges) + [""]
  {
    EdgeFileRoundTrip(edges);
    EdgeFileLineCount(edges);
    EdgeFileLines(edges);
  }

  /**
   * The writer of the generator script: opens `path + 'seed=NN.edges'` and
   * writes one line per edge in list order. The file system is replaced by the
   * returned name and text.
   */
  method WriteEdgeFile(path: string, seed: nat, edges: seq<Edge>) returns (name: string, text: string)
    ensures name == path + SeedFileName(seed, ".edges")
    ensures ParseEdgeFile(text) == Some(edges)
    ensures CountChar(text, '\n') == |edges|
    ensures SplitOn(text, '\n') == EdgeLines(edges) + [""]
  {
    name := path + SeedFileName(seed, ".edges");
    text := "";
    for i := 0 to |edges|
      invariant text == EdgeFileText(edges[..i])
    {
      assert edges[..i + 1] == edges[..i] + [edges[i]];
      EdgeFileTextAppend(edges[..i], edges[i]);
      text := text + EdgeLine(edges[i]) + "\n";
    }
    assert edges[..|edges|] == edges;
    EdgeFileFormat(edges);
  }
}
