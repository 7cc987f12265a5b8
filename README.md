# Bipartite-Network, modelled in Dafny

The repository generates random directed networks whose nodes fall into two
classes, A and B, writes each network as an edge list for an external motif
finder, and then reads the finder's reports back to collect one normalised
z-score per three-node motif class and seed. This project models the core of
both scripts and proves what they promise.

- `network_generator.dfy` (module `NetworkGenerator`) models `generate_network`:
  - the split of nodes `0..N-1` into classes A and B;
  - the rejection-sampling loop that grows a set of ordered edges until it
    reaches `Mc * N * (N-1)`;
  - the optional complement step.

  The random numbers arrive as oracle sequences:
  - `uniforms` holds one value per node (`np.random.random()`);
  - `draws` holds, per loop turn, an edge type and two picks into the node
    pools (`np.random.choice`).

  A finite `draws` sequence bounds the loop. When it runs out, the result is
  the explicit error `DrawsExhausted`.
- `edge_file.dfy` (module `EdgeFile`) models the writer of `seed=NN.edges`,
  where each edge `(i, j)` becomes the line `i+1 TAB j+1 TAB 1`.
- `titles.dfy` (module `Titles`) models the two rewriters that turn the
  experiment directory name `N=..-Mc=..-p=.._..(-inv)` into a plot title. One
  is in `draw_nw`; the other runs in the analysis script on its working
  directory.
- `analysis_tool.dfy` (module `AnalysisTool`) models `read_motif_data` and the
  fixed tables it uses:
  - the search for the motif-table header;
  - the thirteen two-line records;
  - the sentinel `888888`;
  - the id-to-class table of `read_motif_data` and the drawing-order table
    of `plot_motif_scores`;
  - the per-seed normalisation and the per-class lists.
- `pystr.dfy` (module `PyStr`) and `decimal.dfy` (module `Decimal`) give the
  Python string and integer operations the scripts rely on:
  - `str.find`, slicing and `str.replace`;
  - `str.split()` on white space, which the motif-table reader uses;
  - splitting on one character, which the model's own edge-file reader
    uses for the round-trip lemmas (the scripts do not call it);
  - `join`, `int()` and `'{:02d}'.format`.
- `wrappers.dfy` holds `Option` and `Result`.

Three facts about the code are easy to misread, and the model follows the
code in each:
- The loop runs while `len(edges) < Mc*N*(N-1)`. On exit the set size is
  therefore the least integer not below the target (a ceiling).
- The header the reader looks for has double tabs after `ID` and after
  `STATS`.
- A report without that header does not skip the seed. The whole reader
  returns `None` at once, so later seeds are never read. The model returns
  `NoMotifInfo(name)`.

## Model

| member | source | states |
|---|---|---|
| NetworkGenerator.EdgeType.Name | network_generator.py:49 | each edge type's label is the entry of `['aa', 'ab', 'ba', 'bb']` at its index, which is also its index into `probs`; both letters are `a` or `b` |
| NetworkGenerator.Partition | network_generator.py:39-45 | the loop builds exactly the two class lists the random numbers define: every node `0..N-1` is in exactly one of them, in class A iff its draw is below 0.5, and both lists are strictly increasing |
| NetworkGenerator.ClassMembersPartition | network_generator.py:39-45 | the reference class lists split the nodes by their draws, each list strictly increasing |
| NetworkGenerator.Pick | network_generator.py:51-52 | the source is taken from class A iff the type's first letter is `a`, and the target iff the second letter is `a`; the pick fails iff a class it needs is empty |
| NetworkGenerator.Accepted | network_generator.py:47-55 | the set after t turns has at most t edges and no self-loop |
| NetworkGenerator.AcceptedProduced | network_generator.py:54-55 | an edge is in the set after t turns iff it is no self-loop and one of those turns picked it |
| NetworkGenerator.SampleEdges | network_generator.py:47-55 | the loop returns the set of the loop-free picks of its turns, and it stops at the first turn whose set reaches the target, every earlier pick having succeeded; so the size is the least integer not below the target; an invalid probability vector (iff the target is positive), an empty class at the stopping turn and running out of draws each give their own error, with the set still below the target |
| NetworkGenerator.StopsAtUnique | network_generator.py:47-59 | the draws fix the stopping turn and the sampled set, so a plain and an inverted run on the same random inputs return a set and its complement |
| NetworkGenerator.AllPairsSize | network_generator.py:58 | there are exactly `N*(N-1)` ordered pairs without self-loops |
| NetworkGenerator.ComplementLaws | network_generator.py:57-59 | the complement is disjoint from the set; their union is all pairs; its size is `N*(N-1) - |edges|`; complementing twice gives the set back; complement edges are in range and loop-free |
| NetworkGenerator.ListOfSet | network_generator.py:61 | `list(edges)` has the set's members, no duplicates, and the set's size |
| NetworkGenerator.TypeOf | network_generator.py:49-52 | an edge's type is spelled by the classes of its two endpoints |
| NetworkGenerator.ClassOfPick | network_generator.py:49-54 | an edge the loop adds has endpoints in range, and the draw's type equals the type its endpoints' classes spell |
| NetworkGenerator.SampledEdgesTyped | network_generator.py:47-55 | every sampled edge is in range, and it comes from a draw whose type matches its endpoint classes |
| NetworkGenerator.SampledTypesHaveWeight | network_generator.py:49 | when only types with positive probability are drawn, every sampled edge has a type of positive probability |
| NetworkGenerator.GenerateNetwork | network_generator.py:35-61 | the argument checks fail iff a probability is negative or `Mc` is outside `(0, 1)`; an invalid distribution is reported iff the checks pass, the target is positive and `probs` is not a distribution; an empty class or exhausted draws happen only with the set below the target; on success the node lists are the class lists of the draws, the sampled set is the picks up to the first turn reaching the target, and the returned edges are distinct, in range and loop-free: that set, or its complement with `invert`, with the matching size |
| EdgeFile.SeedFileNameRoundTrip | network_generator.py:123 | the zero-padded file name `seed=NN.edges` gives its seed back |
| EdgeFile.SeedFileNamesDistinct | network_generator.py:123 | different seeds write different files |
| EdgeFile.EdgeLineRoundTrip | network_generator.py:125 | the line `i+1 TAB j+1 TAB 1` reads back as the edge `(i, j)` |
| EdgeFile.EdgeFileRoundTrip | network_generator.py:124-125 | the written text reads back as the edge list, in order |
| EdgeFile.EdgeFileLineCount | network_generator.py:124-125 | the text has exactly one line break per edge |
| EdgeFile.EdgeFileFormat | network_generator.py:124-125 | splitting the text at line breaks gives the edge lines in list order, then an empty tail |
| EdgeFile.WriteEdgeFile | network_generator.py:123-125 | the writer loop names the file by the directory path and the padded seed; its text reads back as the edge list, with one line per edge in order |
| Titles.ReplaceJoinSeparator | network_generator.py:72 | replacing `_` by `, ` in underscore-joined fields gives the same fields joined by `, ` |
| Titles.PlotTitleOfPath | network_generator.py:65-72 | for the directory `N=n-Mc=m-p=p1_.._pk(-inv)/`, the title is `N=n, Mc=m, p=[p1, .., pk]`, followed by `; inv` for inverted runs |
| Titles.DirTitleOfDir | analysis_tool.py:175-183 | for a working directory that ends in such a directory name under a parent path without `N=`, the title is the same readable form |
| Titles.TitlesAgree | analysis_tool.py:176-183 | the analysis script's title for a run directory equals the title `draw_nw` gave that run |
| Titles.DirTitleWithoutMarker | analysis_tool.py:176 | without `N=`, `find` gives -1 and only the last character survives, followed by `]`, a final `_` becoming `, ` (just `]` for an empty path) |
| PyStr.Find | network_generator.py:65 | `str.find`: -1 iff the pattern is absent, otherwise the first occurrence |
| PyStr.SliceFrom | analysis_tool.py:176 | a slice from a possibly negative start is a suffix of the length Python gives it: empty past the end, the whole string before the start |
| PyStr.Tokens | analysis_tool.py:43 | `str.split()` yields non-empty tokens free of white space |
| PyStr.TokensSplitAtSpace | analysis_tool.py:43 | `str.split()` of a line cut at any white-space character is the split of the part before followed by the split of the part after |
| PyStr.TokensOfLoneWord | analysis_tool.py:43 | a non-empty word without white space splits into itself alone; with the cut above this fixes `str.split()` on every line |
| PyStr.TokensSpaced | analysis_tool.py:43 | splitting words separated by any non-empty white-space runs, with any white space before the first and after the last, gives the words back |
| Decimal.ZeroPad2 | network_generator.py:123 | `{:02d}`: at least two digits, with a leading zero exactly for seeds below 10 |
| Decimal.ParseNatToString | network_generator.py:125 | a number printed in decimal reads back as the same number |
| AnalysisTool.TablesInverse | analysis_tool.py:104 | the drawing order lists 13 distinct ids; the id table sends the i-th of them to i; every id in the table is drawn at its own index |
| AnalysisTool.XAxisAligned | analysis_tool.py:104-126 | the list of the motif drawn i-th has the x position `2*i` of `x = [2*i ...]`, where its violin is drawn |
| AnalysisTool.MarkerFrom | analysis_tool.py:32-34 | the result is the first line at or after i that starts with the header, or None iff there is none |
| AnalysisTool.SkipToMarker | analysis_tool.py:29-38 | the header search stops at the first line whose prefix of header length is the header; no earlier line matches; None iff no line matches |
| AnalysisTool.ParseRecord | analysis_tool.py:42-46 | a kept record's class is one of the 13 classes |
| AnalysisTool.ParseRecordMeaning | analysis_tool.py:43-46 | a record is dropped iff it has at least four tokens, an integer id and token 3 equal to `888888`; a kept record carries the table class of its id and the value of token 3; an unknown id is an error only for a non-sentinel record whose z-score parses; conversely every line with at least four tokens, an integer id in the table and a readable non-sentinel token 3 is kept under that id's class with that value |
| AnalysisTool.SentinelRecordDropped | analysis_tool.py:45 | a sentinel row is dropped whatever its motif id, known or not, whatever white space separates and surrounds its fields |
| AnalysisTool.KnownRecordKept | analysis_tool.py:44-46 | a row with a known id and a readable z-score other than `888888` yields that id's class and that z-score, whatever white space separates and surrounds its fields |
| AnalysisTool.TableRecordsClassed | analysis_tool.py:41-47 | each of the 13 records, read from every second line after the header, names one of the 13 classes when kept |
| AnalysisTool.CollectClasses | analysis_tool.py:40-46 | every key of `motif_z` is one of the 13 classes |
| AnalysisTool.CollectErrorStays | analysis_tool.py:41-46 | an exception in one record is the outcome of the whole table |
| AnalysisTool.CollectFailure | analysis_tool.py:41-46 | the table fails iff some record fails, and it reports the first failing record's error |
| AnalysisTool.CollectLastWins | analysis_tool.py:46 | a class is in `motif_z` iff some record kept it, and it holds the z-score of the last such record |
| AnalysisTool.ReadRecords | analysis_tool.py:40-47 | the 13-turn loop builds exactly the dictionary the records define, or raises the first record's exception |
| AnalysisTool.ScaledSquaresShare | analysis_tool.py:55-56 | dividing every squared z-score by the same number divides their sum by it |
| AnalysisTool.UnitLength | analysis_tool.py:49-56 | unless all kept z-scores are 0, the norm is that of the kept z-scores and the squares of the normalised values sum to 1 |
| AnalysisTool.AppendSeed | analysis_tool.py:55-57 | each kept class gets its z-score over the seed's common norm appended to its list; other lists are unchanged; the rescaled dictionary has the same keys |
| AnalysisTool.ReadSeed | analysis_tool.py:26-47 | one turn of the seed loop yields the seed's result: a dictionary whose keys are among the 13 classes, or the outcome that ends the reading (a missing file, a missing header, an exception) |
| AnalysisTool.Run | analysis_tool.py:26-57 | while reading goes on, there are 13 class lists |
| AnalysisTool.RunPrefix | analysis_tool.py:26-57 | each further seed advances the state by one turn of the loop body |
| AnalysisTool.StoppedStays | analysis_tool.py:35-38 | after a missing header or an exception, later seeds change nothing |
| AnalysisTool.StopCause | analysis_tool.py:26-47 | a stopped reading stopped at some seed whose result is its outcome, with every earlier seed read in full |
| AnalysisTool.SeedReadNoMotifInfo | analysis_tool.py:35-38 | a seed yields `None` exactly when its report exists, has no header, and the name is that report's |
| AnalysisTool.NoMotifInfoCause | analysis_tool.py:35-38 | a `None` result names a report that exists and has no header; every earlier report was read in full |
| AnalysisTool.KeptSeeds | analysis_tool.py:55-57 | the seeds whose result kept a class, in increasing order, all of them and no others |
| AnalysisTool.ClassLists | analysis_tool.py:24-63 | class k's list has one entry per seed that kept class k, in seed order; each entry is that seed's z-score over that seed's norm |
| AnalysisTool.ReadMotifData | analysis_tool.py:20-63 | the seed loop returns the data `x = [0, 2, .., 24]` and 13 lists defined by the reports, or `None` for the first report without a header, or the first exception |

## Left out

- Random distributions. The class split and the weighted choice of edge types are oracle inputs, and no probabilistic claim is made. The same holds for the seeding with `np.random.seed`.
- NetworkGenerator.SampleEdges: the loop is bounded by the finite `draws` sequence. An unreachable target (for instance a required class that is too small) ends in `DrawsExhausted` after the draws run out. The program would loop forever instead.
- NetworkGenerator.SampleEdges: the probability vector is valid only when it has four non-negative entries summing to exactly 1. numpy accepts a small rounding tolerance on the sum. With the target already met (for example `N < 2`), the loop never calls `np.random.choice`, and no check happens.
- NetworkGenerator.SampleEdges: `Mc` and the target `Mc*N*(N-1)` are exact reals. The float rounding of the product is not modelled.
- NetworkGenerator.GenerateNetwork: the flag tested at line 57 is the global `key_invert` and not the `invert` parameter. The model takes the flag as a parameter. At the only call site, line 118 with the global false at line 104, the two agree.
- NetworkGenerator.ListOfSet: the order of `list(edges)` depends on Python's set hashing. The model fixes some order and promises only members, distinctness and length.
- The path built at network_generator.py:106-108 formats `Mc` and the probabilities with `'%.2f'`. The title lemmas take these fields as already formatted text without `-`, `/` or `_`.
- PyStr.Replace: only non-empty patterns are modelled. The scripts never replace an empty string.
- PyStr.Tokens: only ASCII white space and the separators U+001C to U+001F separate tokens. Python's `str.split()` also splits at other Unicode spaces.
- Decimal.ParseInt: it accepts an optional sign followed by ASCII digits. Python's `int()` also accepts surrounding white space, underscores between digits and non-ASCII digits.
- AnalysisTool.ReadMotifData: the reports are a map from seed to the lines of that seed's report file, a seed without a file being absent from it; `float()` is the parameter `toFloat`. How `codecs` splits a file into lines, and how the float text is parsed, are not part of this model.
- AnalysisTool.AppendSeed: a normalised value is kept as the pair of its raw z-score and its norm. The square root and the division are not computed; unit length is stated on the squares (`UnitLength`). When every kept z-score is 0 the norm is 0, and numpy produces `nan` rather than an exception.
- The warnings printed for a missing header, the optional `run_mfinder` subprocess call, file opening and writing, `get_pos` coordinates, and all plotting in `draw_nw` and `plot_motif_scores` (violins, means and standard deviations, and the motif glyph catalogue) are I/O, floating point or drawing. They are not modelled.
