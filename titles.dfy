/**
 * Plot titles rebuilt from the experiment directory name.
 *
 * The generator names its output directory `N={N}-Mc={Mc}-p={p1}_{p2}_..{-inv}/`
 * and `draw_nw` turns that path back into a readable title; the analysis
 * script does the same with its working directory. Both rewriters are chains
 * of `str.find`, slicing and `str.replace`; the lemmas show that each one
 * recovers `N=.., Mc=.., p=[.., ..]` (with `; inv` for inverted runs) from a
 * directory name whose fields hold none of the separators.
 */
module Titles {
  import opened PyStr

  /** The title computed in `draw_nw` from the output path. */
  function PlotTitle(path: string): string
  {
    var t1 := SliceFrom(path, Find(path, "N="));
    var t2 := Replace(t1, "-Mc=", ", Mc=");
    var t3 := Replace(t2, "-p=", ", p=[");
    var t4 := if Find(t3, "-inv") != -1 then Replace(t3, "-inv/", "]; inv") else Replace(t3, "/", "]");
    Replace(t4, "_", ", ")
  }

  /** The title the analysis script computes from its working directory. */
  function DirTitle(dirpath: string): string
  {
    var t1 := SliceFrom(dirpath, Find(dirpath, "N="));
    var t2 := Replace(t1, "-Mc=", ", Mc=");
    var t3 := Replace(t2, "-p=", ", p=[");
    var t4 := if Find(t3, "-inv") != -1 then Replace(t3, "-inv", "]; inv") else t3 + "]";
    Replace(t4, "_", ", ")
  }

  /** A directory-name field: none of the separators the rewriters look for. */
  predicate Plain(s: string)
  {
    HasNoChar(s, '-') && HasNoChar(s, '/') && HasNoChar(s, '_')
  }

  predicate AllPlain(fields: seq<string>)
  {
    forall k :: 0 <= k < |fields| ==> Plain(fields[k])
  }

  function InvSuffix(inv: bool): string
  {
    if inv then "-inv" else ""
  }

  /**
   * The directory the generator creates: `f'N={N}-Mc={Mc:.2f}-p={s_p}{s_inv}'`
   * with `s_p = "_".join(...)`; the fields are the already formatted numbers.
   */
  function ExperimentDir(nText: string, mcText: string, probTexts: seq<string>, inv: bool): string
  {
    "N=" + nText + "-Mc=" + mcText + "-p=" + JoinWith(probTexts, "_") + InvSuffix(inv)
  }

  /** The closing bracket of the probability list, and the inverted-run marker. */
  function TitleEnding(inv: bool): string
  {
    if inv then "]; inv" else "]"
  }

  /** The readable title both scripts aim at. */
  function ExpectedTitle(nText: string, mcText: string, probTexts: seq<string>, inv: bool): string
  {
    "N=" + nText + ", Mc=" + mcText + ", p=[" + JoinWith(probTexts, ", ") + TitleEnding(inv)
  }

  lemma NoCharConcat(a: string, b: string, c: char)
    ensures HasNoChar(a + b, c) <==> HasNoChar(a, c) && HasNoChar(b, c)
  {
    if HasNoChar(a, c) && HasNoChar(b, c) {
      forall i | 0 <= i < |a + b| ensures (a + b)[i] != c {
        if i >= |a| {
          assert (a + b)[i] == b[i - |a|];
        }
      }
    }
    if HasNoChar(a + b, c) {
      forall i | 0 <= i < |a| ensures a[i] != c {
        assert (a + b)[i] == a[i];
      }
      forall i | 0 <= i < |b| ensures b[i] != c {
        assert (a + b)[|a| + i] == b[i];
      }
    }
  }

  lemma {:induction false} JoinNoChar(parts: seq<string>, sep: string, c: char)
    requires HasNoChar(sep, c)
    requires forall k :: 0 <= k < |parts| ==> HasNoChar(parts[k], c)
    ensures HasNoChar(JoinWith(parts, sep), c)
    decreases |parts|
  {
    if |parts| > 1 {
      JoinNoChar(parts[1..], sep, c);
      NoCharConcat(parts[0], sep, c);
      NoCharConcat(parts[0] + sep, JoinWith(parts[1..], sep), c);
    }
  }

  lemma JoinPlain(parts: seq<string>)
    requires AllPlain(parts)
    ensures HasNoChar(JoinWith(parts, "_"), '-') && HasNoChar(JoinWith(parts, "_"), '/')
  {
    JoinNoChar(parts, "_", '-');
    JoinNoChar(parts, "_", '/');
  }

  lemma MatchFreeConcat(a: string, b: string, p: string)
    requires MatchFree(a, p) && MatchFree(b, p)
    ensures MatchFree(a + b, p)
  {
    var s := a + b;
    forall i | 0 <= i < |s| ensures !PrefixCompatible(s[i..], p) {
      if i < |a| {
        var u := a[i..];
        assert s[i..] == u + b;
        assert !PrefixCompatible(u, p);
      } else {
        assert s[i..] == b[i - |a|..];
      }
    }
  }

  /** With a one-character pattern no occurrence straddles a boundary, so `replace` distributes. */
  lemma {:induction false} ReplaceCharConcat(a: string, b: string, c: char, q: string)
    ensures Replace(a + b, [c], q) == Replace(a, [c], q) + Replace(b, [c], q)
    decreases |a|
  {
    if a == [] {
      assert a + b == b;
    } else {
      assert (a + b)[1..] == a[1..] + b;
      assert (a + b)[..1] == a[..1];
      ReplaceCharConcat(a[1..], b, c, q);
    }
  }

  /** Replacing the join separator `_` by `, ` re-joins the fields with `, `. */
  lemma {:induction false} ReplaceJoinSeparator(parts: seq<string>)
    requires forall k :: 0 <= k < |parts| ==> HasNoChar(parts[k], '_')
    ensures Replace(JoinWith(parts, "_"), "_", ", ") == JoinWith(parts, ", ")
    decreases |parts|
  {
    if |parts| == 1 {
      NoFirstCharMatchFree(parts[0], "_");
      ReplaceMatchFree(parts[0], "_", ", ");
    } else if |parts| > 1 {
      ReplaceJoinSeparator(parts[1..]);
      var rest := JoinWith(parts[1..], "_");
      ReplaceCharConcat(parts[0] + "_", rest, '_', ", ");
      ReplaceCharConcat(parts[0], "_", '_', ", ");
      NoFirstCharMatchFree(parts[0], "_");
      ReplaceMatchFree(parts[0], "_", ", ");
      ReplaceAtMatch([], "_", ", ");
      assert "_" + [] == "_";
    }
  }

  /** One occurrence of p between two stretches where p cannot begin: only it is replaced. */
  lemma ReplaceThrough(a: string, p: string, rest: string, q: string)
    requires |p| > 0 && MatchFree(a, p) && MatchFree(rest, p)
    ensures Replace(a + p + rest, p, q) == a + q + rest
  {
    var t := p + rest;
    assert a + p + rest == a + t;
    ReplaceAfterMatchFree(a, t, p, q);
    ReplaceAtMatch(rest, p, q);
    ReplaceMatchFree(rest, p, q);
    assert a + (q + rest) == a + q + rest;
  }

  /** Text with no '-' cannot contain a pattern that begins with '-'. */
  lemma NoDashNoMatch(s: string, p: string)
    requires |p| > 0 && p[0] == '-' && HasNoChar(s, '-')
    ensures MatchFree(s, p) && !Contains(s, p)
  {
    NoFirstCharMatchFree(s, p);
  }

  lemma LiteralMatchFree()
    ensures MatchFree("-p=", "-Mc=") && MatchFree("-inv", "-Mc=") && MatchFree("-inv", "-p=")
    ensures MatchFree("/", "-Mc=") && MatchFree("/", "-p=")
  {
    assert "/"[0] != '-';
    NoFirstCharMatchFree("/", "-Mc=");
    NoFirstCharMatchFree("/", "-p=");
    var minus := "-p=";
    forall i | 0 <= i < 3 ensures !PrefixCompatible(minus[i..], "-Mc=") {
      if i == 0 {
        assert "-Mc="[..3][1] != minus[1];
      } else {
        assert minus[i..][0] != '-';
      }
    }
    var inv := "-inv";
    forall i | 0 <= i < 4 ensures !PrefixCompatible(inv[i..], "-Mc=") && !PrefixCompatible(inv[i..], "-p=") {
      if i == 0 {
        assert inv[..4][1] != "-Mc="[1];
        assert inv[..3][1] != "-p="[1];
      } else {
        assert inv[i..][0] != '-';
      }
    }
  }

  lemma PlainFields(nText: string, mcText: string, probTexts: seq<string>)
    requires Plain(nText) && Plain(mcText) && AllPlain(probTexts)
    ensures HasNoChar("N=" + nText, '-') && HasNoChar("N=" + nText + ", Mc=" + mcText, '-')
    ensures HasNoChar(JoinWith(probTexts, "_"), '-') && HasNoChar(JoinWith(probTexts, "_"), '/')
    ensures HasNoChar("N=" + nText + ", Mc=" + mcText + ", p=[", '-')
    ensures HasNoChar("N=" + nText + ", Mc=" + mcText + ", p=[" + JoinWith(probTexts, "_"), '-')
    ensures HasNoChar("N=" + nText + ", Mc=" + mcText + ", p=[" + JoinWith(probTexts, "_"), '/')
    ensures HasNoChar("N=" + nText + ", Mc=" + mcText + ", p=[", '_')
  {
    JoinPlain(probTexts);
    var a := "N=" + nText;
    var b := a + ", Mc=" + mcText;
    var c := b + ", p=[";
    NoCharConcat("N=", nText, '-');
    NoCharConcat(a, ", Mc=", '-');
    NoCharConcat(a + ", Mc=", mcText, '-');
    NoCharConcat(b, ", p=[", '-');
    NoCharConcat(c, JoinWith(probTexts, "_"), '-');
    NoCharConcat("N=", nText, '/');
    NoCharConcat(a, ", Mc=", '/');
    NoCharConcat(a + ", Mc=", mcText, '/');
    NoCharConcat(b, ", p=[", '/');
    NoCharConcat(c, JoinWith(probTexts, "_"), '/');
    NoCharConcat("N=", nText, '_');
    NoCharConcat(a, ", Mc=", '_');
    NoCharConcat(a + ", Mc=", mcText, '_');
    NoCharConcat(b, ", p=[", '_');
  }

  /** Around `-Mc=` in the directory name, no other match of `-Mc=` can begin. */
  lemma McMatchFreeParts(nText: string, mcText: string, probTexts: seq<string>, inv: bool, tail: string)
    requires Plain(nText) && Plain(mcText) && AllPlain(probTexts) && HasNoChar(tail, '-')
    ensures MatchFree("N=" + nText, "-Mc=")
    ensures MatchFree(mcText + "-p=" + JoinWith(probTexts, "_") + InvSuffix(inv) + tail, "-Mc=")
  {
    var j, i := JoinWith(probTexts, "_"), InvSuffix(inv);
    PlainFields(nText, mcText, probTexts);
    NoFirstCharMatchFree("N=" + nText, "-Mc=");
    LiteralMatchFree();
    NoFirstCharMatchFree(mcText, "-Mc=");
    NoFirstCharMatchFree(j, "-Mc=");
    NoFirstCharMatchFree(tail, "-Mc=");
    MatchFreeConcat(mcText, "-p=", "-Mc=");
    MatchFreeConcat(mcText + "-p=", j, "-Mc=");
    MatchFreeConcat(mcText + "-p=" + j, i, "-Mc=");
    MatchFreeConcat(mcText + "-p=" + j + i, tail, "-Mc=");
  }

  /** Regrouping eight pieces around the third. */
  lemma SplitAtThird(x1: string, x2: string, x3: string, x4: string, x5: string, x6: string, x7: string, x8: string)
    ensures x1 + x2 + x3 + x4 + x5 + x6 + x7 + x8 == (x1 + x2) + x3 + (x4 + x5 + x6 + x7 + x8)
  {
  }

  /** Regrouping eight pieces around the fifth. */
  lemma SplitAtFifth(x1: string, x2: string, x3: string, x4: string, x5: string, x6: string, x7: string, x8: string)
    ensures x1 + x2 + x3 + x4 + x5 + x6 + x7 + x8 == (x1 + x2 + x3 + x4) + x5 + (x6 + x7 + x8)
  {
  }

  /** Step `replace('-Mc=', ', Mc=')` on the directory name followed by `tail`. */
  lemma StepMc(nText: string, mcText: string, probTexts: seq<string>, inv: bool, tail: string)
    requires Plain(nText) && Plain(mcText) && AllPlain(probTexts) && HasNoChar(tail, '-')
    ensures Replace(ExperimentDir(nText, mcText, probTexts, inv) + tail, "-Mc=", ", Mc=")
      == "N=" + nText + ", Mc=" + mcText + "-p=" + JoinWith(probTexts, "_") + InvSuffix(inv) + tail
  {
    var j, i := JoinWith(probTexts, "_"), InvSuffix(inv);
    McMatchFreeParts(nText, mcText, probTexts, inv, tail);
    ReplaceThrough("N=" + nText, "-Mc=", mcText + "-p=" + j + i + tail, ", Mc=");
    SplitAtThird("N=", nText, "-Mc=", mcText, "-p=", j, i, tail);
    SplitAtThird("N=", nText, ", Mc=", mcText, "-p=", j, i, tail);
  }

  /** Around `-p=`, no other match of `-p=` can begin. */
  lemma PMatchFreeParts(nText: string, mcText: string, probTexts: seq<string>, inv: bool, tail: string)
    requires Plain(nText) && Plain(mcText) && AllPlain(probTexts) && HasNoChar(tail, '-')
    ensures MatchFree("N=" + nText + ", Mc=" + mcText, "-p=")
    ensures MatchFree(JoinWith(probTexts, "_") + InvSuffix(inv) + tail, "-p=")
  {
    var j, i := JoinWith(probTexts, "_"), InvSuffix(inv);
    PlainFields(nText, mcText, probTexts);
    NoFirstCharMatchFree("N=" + nText + ", Mc=" + mcText, "-p=");
    LiteralMatchFree();
    NoFirstCharMatchFree(j, "-p=");
    NoFirstCharMatchFree(tail, "-p=");
    MatchFreeConcat(j, i, "-p=");
    MatchFreeConcat(j + i, tail, "-p=");
  }

  /** Step `replace('-p=', ', p=[')`. */
  lemma StepP(nText: string, mcText: string, probTexts: seq<string>, inv: bool, tail: string)
    requires Plain(nText) && Plain(mcText) && AllPlain(probTexts) && HasNoChar(tail, '-')
    ensures Replace("N=" + nText + ", Mc=" + mcText + "-p=" + JoinWith(probTexts, "_") + InvSuffix(inv) + tail, "-p=", ", p=[")
      == "N=" + nText + ", Mc=" + mcText + ", p=[" + JoinWith(probTexts, "_") + InvSuffix(inv) + tail
  {
    var j, i := JoinWith(probTexts, "_"), InvSuffix(inv);
    PMatchFreeParts(nText, mcText, probTexts, inv, tail);
    ReplaceThrough("N=" + nText + ", Mc=" + mcText, "-p=", j + i + tail, ", p=[");
    SplitAtFifth("N=", nText, ", Mc=", mcText, "-p=", j, i, tail);
    SplitAtFifth("N=", nText, ", Mc=", mcText, ", p=[", j, i, tail);
  }

  /** Text without '-' holds no `-inv`; text with `-inv` after such a prefix does. */
  lemma FindInv(b: string, inv: bool, tail: string)
    requires HasNoChar(b, '-') && HasNoChar(tail, '-')
    ensures (Find(b + InvSuffix(inv) + tail, "-inv") != -1) == inv
  {
    var s := b + InvSuffix(inv) + tail;
    if inv {
      assert s[|b|..|b| + 4] == "-inv";
      assert OccursAt(s, "-inv", |b|);
    } else {
      NoCharConcat(b, tail, '-');
      assert s == b + tail;
      NoDashNoMatch(s, "-inv");
    }
  }

  /** Last step `replace('_', ', ')`: only the separators inside the probability list change. */
  lemma StepUnderscore(nText: string, mcText: string, probTexts: seq<string>, ending: string)
    requires Plain(nText) && Plain(mcText) && AllPlain(probTexts) && HasNoChar(ending, '_')
    ensures Replace("N=" + nText + ", Mc=" + mcText + ", p=[" + JoinWith(probTexts, "_") + ending, "_", ", ")
      == "N=" + nText + ", Mc=" + mcText + ", p=[" + JoinWith(probTexts, ", ") + ending
  {
    PlainFields(nText, mcText, probTexts);
    var a := "N=" + nText + ", Mc=" + mcText + ", p=[";
    var j := JoinWith(probTexts, "_");
    ReplaceCharConcat(a + j, ending, '_', ", ");
    ReplaceCharConcat(a, j, '_', ", ");
    NoFirstCharMatchFree(a, "_");
    ReplaceMatchFree(a, "_", ", ");
    NoFirstCharMatchFree(ending, "_");
    ReplaceMatchFree(ending, "_", ", ");
    ReplaceJoinSeparator(probTexts);
  }

  /** The `-inv` branch of `draw_nw` for an inverted run. */
  lemma PlotInvStepInverted(b: string)
    requires HasNoChar(b, '-')
    ensures Find(b + "-inv/", "-inv") != -1
    ensures Replace(b + "-inv/", "-inv/", "]; inv") == b + "]; inv"
  {
    assert HasNoChar("/", '-');
    FindInv(b, true, "/");
    assert b + InvSuffix(true) + "/" == b + "-inv/";
    NoFirstCharMatchFree(b, "-inv/");
    assert MatchFree([], "-inv/");
    ReplaceThrough(b, "-inv/", [], "]; inv");
    assert b + "-inv/" + [] == b + "-inv/";
  }

  /** The `-inv` branch of `draw_nw` for a plain run. */
  lemma PlotInvStepPlain(b: string)
    requires HasNoChar(b, '-') && HasNoChar(b, '/')
    ensures Find(b + "/", "-inv") == -1
    ensures Replace(b + "/", "/", "]") == b + "]"
  {
    assert HasNoChar("/", '-');
    FindInv(b, false, "/");
    assert b + InvSuffix(false) + "/" == b + "/";
    NoFirstCharMatchFree(b, "/");
    assert MatchFree([], "/");
    ReplaceThrough(b, "/", [], "]");
    assert b + "/" + [] == b + "/";
  }

  /** The `-inv` branch of the analysis script, once `-Mc=` and `-p=` are rewritten. */
  lemma DirInvStep(b: string, inv: bool)
    requires HasNoChar(b, '-')
    ensures (var t := b + InvSuffix(inv);
             if Find(t, "-inv") != -1 then Replace(t, "-inv", "]; inv") else t + "]")
         == b + (if inv then "]; inv" else "]")
  {
    assert HasNoChar([], '-');
    FindInv(b, inv, []);
    assert b + InvSuffix(inv) + [] == b + InvSuffix(inv);
    if inv {
      NoFirstCharMatchFree(b, "-inv");
      assert MatchFree([], "-inv");
      ReplaceThrough(b, "-inv", [], "]; inv");
      assert b + InvSuffix(inv) == b + "-inv" + [];
    }
  }

  /**
   * `draw_nw` turns the generator's output path `N=..-Mc=..-p=.._..{-inv}/`
   * into `N=.., Mc=.., p=[.., ..]`, followed by `; inv` for an inverted run.
   */
  lemma PlotTitleOfPath(nText: string, mcText: string, probTexts: seq<string>, inv: bool)
    requires Plain(nText) && Plain(mcText) && AllPlain(probTexts)
    ensures PlotTitle(ExperimentDir(nText, mcText, probTexts, inv) + "/") == ExpectedTitle(nText, mcText, probTexts, inv)
  {
    var path := ExperimentDir(nText, mcText, probTexts, inv) + "/";
    var j := JoinWith(probTexts, "_");
    var b := "N=" + nText + ", Mc=" + mcText + ", p=[" + j;
    var ending := TitleEnding(inv);
    FindAtStart(path);
    var t1 := SliceFrom(path, Find(path, "N="));
    assert t1 == path;
    assert HasNoChar("/", '-');
    StepMc(nText, mcText, probTexts, inv, "/");
    var t2 := Replace(t1, "-Mc=", ", Mc=");
    StepP(nText, mcText, probTexts, inv, "/");
    var t3 := Replace(t2, "-p=", ", p=[");
    assert t3 == b + InvSuffix(inv) + "/";
    PlainFields(nText, mcText, probTexts);
    var t4 := if Find(t3, "-inv") != -1 then Replace(t3, "-inv/", "]; inv") else Replace(t3, "/", "]");
    if inv {
      assert t3 == b + "-inv/";
      PlotInvStepInverted(b);
    } else {
      assert t3 == b + "/";
      PlotInvStepPlain(b);
    }
    assert t4 == b + ending;
    EndingPlain(inv);
    StepUnderscore(nText, mcText, probTexts, ending);
    assert PlotTitle(path) == Replace(t4, "_", ", ");
  }

  lemma EndingPlain(inv: bool)
    ensures HasNoChar(TitleEnding(inv), '_')
  {
  }

  lemma FindAtStart(s: string)
    requires |s| >= 2 && s[..2] == "N="
    ensures Find(s, "N=") == 0 && SliceFrom(s, 0) == s
  {
    assert OccursAt(s, "N=", 0);
  }

  /** `find('N=')` lands on the directory name when the parent path holds no '='. */
  lemma FindAfterPrefix(prefix: string, dir: string)
    requires !Contains(prefix, "N=") && |dir| >= 2 && dir[..2] == "N="
    ensures Find(prefix + dir, "N=") == |prefix|
    ensures SliceFrom(prefix + dir, |prefix|) == dir
  {
    var s := prefix + dir;
    assert s[|prefix|..|prefix| + 2] == dir[..2];
    assert OccursAt(s, "N=", |prefix|);
    forall j | 0 <= j < |prefix| ensures !OccursAt(s, "N=", j) {
      if j + 1 < |prefix| {
        assert !OccursAt(prefix, "N=", j);
        assert s[j..j + 2] == prefix[j..j + 2];
      } else {
        assert s[j + 1] == dir[0];
        assert j + 2 <= |s| ==> s[j..j + 2][1] == s[j + 1];
      }
    }
  }

  /**
   * The analysis script, run inside `<parent>/N=..-Mc=..-p=.._..{-inv}` where
   * `<parent>` holds no `N=`, builds the same title as `draw_nw`.
   */
  lemma DirTitleOfDir(prefix: string, nText: string, mcText: string, probTexts: seq<string>, inv: bool)
    requires !Contains(prefix, "N=")
    requires Plain(nText) && Plain(mcText) && AllPlain(probTexts)
    ensures DirTitle(prefix + ExperimentDir(nText, mcText, probTexts, inv)) == ExpectedTitle(nText, mcText, probTexts, inv)
  {
    var dir := ExperimentDir(nText, mcText, probTexts, inv);
    var j := JoinWith(probTexts, "_");
    var b := "N=" + nText + ", Mc=" + mcText + ", p=[" + j;
    var ending := TitleEnding(inv);
    assert dir[..2] == "N=";
    FindAfterPrefix(prefix, dir);
    assert HasNoChar([], '-');
    StepMc(nText, mcText, probTexts, inv, []);
    StepP(nText, mcText, probTexts, inv, []);
    assert dir + [] == dir;
    assert b + InvSuffix(inv) + [] == b + InvSuffix(inv);
    PlainFields(nText, mcText, probTexts);
    DirInvStep(b, inv);
    EndingPlain(inv);
    StepUnderscore(nText, mcText, probTexts, ending);
  }

  /** Both scripts give an experiment the same title. */
  lemma TitlesAgree(prefix: string, nText: string, mcText: string, probTexts: seq<string>, inv: bool)
    requires !Contains(prefix, "N=")
    requires Plain(nText) && Plain(mcText) && AllPlain(probTexts)
    ensures DirTitle(prefix + ExperimentDir(nText, mcText, probTexts, inv))
         == PlotTitle(ExperimentDir(nText, mcText, probTexts, inv) + "/")
  {
    PlotTitleOfPath(nText, mcText, probTexts, inv);
    DirTitleOfDir(prefix, nText, mcText, probTexts, inv);
  }

  /**
   * Without `N=` in the working directory, `find` gives -1 and the slice keeps
   * only the last character; the title is that character (`_` becoming `, `)
   * followed by `]`.
   */
  lemma DirTitleWithoutMarker(dirpath: string)
    requires !Contains(dirpath, "N=")
    ensures dirpath == [] ==> DirTitle(dirpath) == "]"
    ensures dirpath != [] && dirpath[|dirpath| - 1] != '_' ==> DirTitle(dirpath) == [dirpath[|dirpath| - 1], ']']
    ensures dirpath != [] && dirpath[|dirpath| - 1] == '_' ==> DirTitle(dirpath) == ", ]"
  {
    SliceWithoutMarker(dirpath);
    var t1 := SliceFrom(dirpath, Find(dirpath, "N="));
    ShortDirTitle(dirpath, t1);
    CloseShort(t1);
  }

  /** `(t + "]").replace('_', ', ')` for a text t of at most one character. */
  lemma CloseShort(t: string)
    requires |t| <= 1
    ensures t == [] ==> Replace(t + "]", "_", ", ") == "]"
    ensures t == "_" ==> Replace(t + "]", "_", ", ") == ", ]"
    ensures |t| == 1 && t[0] != '_' ==> Replace(t + "]", "_", ", ") == [t[0], ']']
  {
    NoFirstCharMatchFree("]", "_");
    ReplaceMatchFree("]", "_", ", ");
    if t != [] {
      ReplaceCharConcat(t, "]", '_', ", ");
      if t[0] == '_' {
        assert t == "_" + [];
        ReplaceAtMatch([], "_", ", ");
      } else {
        NoFirstCharMatchFree(t, "_");
        ReplaceMatchFree(t, "_", ", ");
      }
    } else {
      assert t + "]" == "]";
    }
  }

  /** Without `N=`, the slice `dirpath[-1:]` keeps only the last character. */
  lemma SliceWithoutMarker(dirpath: string)
    requires !Contains(dirpath, "N=")
    ensures SliceFrom(dirpath, Find(dirpath, "N=")) == if dirpath == [] then [] else dirpath[|dirpath| - 1..]
  {
    assert Find(dirpath, "N=") == -1;
  }

  /** On a slice of at most one character, only the closing `]` and the `_` step act. */
  lemma ShortDirTitle(dirpath: string, t1: string)
    requires t1 == SliceFrom(dirpath, Find(dirpath, "N=")) && |t1| <= 1
    ensures DirTitle(dirpath) == Replace(t1 + "]", "_", ", ")
  {
    ReplaceShort(t1, "-Mc=", ", Mc=");
    ReplaceShort(t1, "-p=", ", p=[");
    assert !Contains(t1, "-inv");
  }
}
