/** The `.env` generator: `check_configuration` on one file and the
    command-line driver over every configuration. The file system is a map
    from configuration name to the text of its `.env` file; the parsed
    command line is argparse's namespace, a map from destination name to
    flag value. */
module EnvConfig {
  import opened Common
  import opened OrderedDict
  import opened Text
  import opened StableSort
  import opened EnvLines

  /** Every line a complete line: what `readlines` gives back unchanged
      after `writelines`. */
  predicate AllTerminated(lines: seq<string>) {
    forall i :: 0 <= i < |lines| ==> IsTerminatedLine(lines[i])
  }

  /** The lines of a file as read, with the newline the last line may lack
      supplied. */
  function Terminate(lines: seq<string>): (r: seq<string>)
    ensures |r| == |lines|
    ensures forall i :: 0 <= i < |lines| - 1 ==> r[i] == lines[i]
  {
    if lines != [] && !EndsInNewline(lines[|lines| - 1])
    then lines[..|lines| - 1] + [lines[|lines| - 1] + "\n"]
    else lines
  }

  /** A piece without its newline becomes a complete line once given one. */
  lemma CompletedLine(l: string)
    requires IsReadLine(l) && !EndsInNewline(l)
    ensures IsTerminatedLine(l + "\n")
  {
    assert (l + "\n")[..|l|] == l;
    assert '\n' !in l by {
      assert l == l[..|l| - 1] + [l[|l| - 1]];
    }
  }

  /** Pieces shaped as `readlines` returns them end up complete lines. */
  lemma TerminateShape(lines: seq<string>)
    requires forall i :: 0 <= i < |lines| ==> IsReadLine(lines[i])
    requires forall i :: 0 <= i < |lines| - 1 ==> EndsInNewline(lines[i])
    ensures AllTerminated(Terminate(lines))
  {
    var r := Terminate(lines);
    forall i | 0 <= i < |r| ensures IsTerminatedLine(r[i]) {
      if i == |r| - 1 && !EndsInNewline(lines[i]) {
        CompletedLine(lines[i]);
        assert r[i] == lines[i] + "\n";
      } else {
        assert r[i] == lines[i];
      }
    }
  }

  /** A file read and terminated consists of complete lines. */
  lemma TerminateReadLines(s: string)
    ensures AllTerminated(Terminate(ReadLines(s)))
  {
    ReadLinesShape(s);
    TerminateShape(ReadLines(s));
  }

  /** Terminating adds at most one newline, at the very end. */
  lemma TerminateWrites(s: string)
    ensures WriteLines(Terminate(ReadLines(s))) in {s, s + "\n"}
  {
    var lines := ReadLines(s);
    WriteReadLines(s);
    if lines != [] && !EndsInNewline(lines[|lines| - 1]) {
      TerminateAppends(lines);
    } else {
      assert Terminate(lines) == lines;
    }
  }

  /** Supplying the missing newline writes one more character. */
  lemma TerminateAppends(lines: seq<string>)
    requires lines != [] && !EndsInNewline(lines[|lines| - 1])
    ensures WriteLines(Terminate(lines)) == WriteLines(lines) + "\n"
  {
    var init := lines[..|lines| - 1];
    var last := lines[|lines| - 1];
    assert Terminate(lines) == init + [last + "\n"];
    assert WriteLines(lines) == WriteLines(init + [last]) by {
      assert lines == init + [last];
    }
    TerminateLast(init, last);
  }

  /** Completing the last line writes one more newline. */
  lemma TerminateLast(init: seq<string>, last: string)
    ensures WriteLines(init + [last + "\n"]) == WriteLines(init + [last]) + "\n"
  {
    WriteLinesSnoc(init, last);
    WriteLinesSnoc(init, last + "\n");
    assert WriteLines(init) + (last + "\n") == (WriteLines(init) + last) + "\n";
  }

  lemma WriteLinesSnoc(init: seq<string>, x: string)
    ensures WriteLines(init + [x]) == WriteLines(init) + x
  {
    WriteLinesConcat(init, [x]);
    assert WriteLines([x]) == x + WriteLines([]);
  }

  lemma {:induction false} WriteLinesConcat(a: seq<string>, b: seq<string>)
    ensures WriteLines(a + b) == WriteLines(a) + WriteLines(b)
    decreases |a|
  {
    if a != [] {
      assert (a + b)[1..] == a[1..] + b;
      WriteLinesConcat(a[1..], b);
    } else {
      assert a + b == b;
    }
  }

  /** A permutation keeps complete lines complete and defined variables
      defined. */
  lemma PermutationKeeps(a: seq<string>, b: seq<string>, name: string)
    requires multiset(a) == multiset(b)
    ensures AllTerminated(a) ==> AllTerminated(b)
    ensures VariableExists(name, a) ==> VariableExists(name, b)
  {
    if AllTerminated(a) {
      forall j | 0 <= j < |b| ensures IsTerminatedLine(b[j]) {
        assert b[j] in multiset(a);
        var i :| 0 <= i < |a| && a[i] == b[j];
      }
    }
    if VariableExists(name, a) {
      var i :| 0 <= i < |a| && StartsWith(a[i], name + "=");
      assert a[i] in multiset(b);
      var j :| 0 <= j < |b| && b[j] == a[i];
    }
  }

  /** The lines added for missing variables are complete lines. */
  lemma {:induction false} MissingLinesTerminated(vars: Variables, lines: seq<string>)
    requires WellFormed(vars)
    ensures AllTerminated(MissingLines(vars, lines))
    decreases |vars|
  {
    if vars != [] {
      AssignmentTerminated(vars[0].key, vars[0].value);
      WellFormedTail(vars);
      MissingLinesTerminated(vars[1..], lines);
    }
  }

  /** The first phase of `check_configuration` as the source writes it: a
      new file in dict order, or the old lines, the missing variables
      appended, sorted by `key`. */
  function CheckedAsWritten(vars: Variables, file: Option<string>, key: string -> string): string {
    match file
    case None => WriteLines(GenerateLines(vars))
    case Some(text) => WriteLines(SortBy(key, CheckForMissing(vars, ReadLines(text))))
  }

  lemma ReadUnterminated()
    ensures ReadLines("A=1") == ["A=1"]
  {
    ReadWithoutNewline("A=1");
  }

  lemma AppendToUnterminated()
    ensures CheckForMissing([Entry("A", Str("1")), Entry("B", Str("2"))], ["A=1"]) == ["A=1", "B=2\n"]
  {
    var vars := [Entry("A", Str("1")), Entry("B", Str("2"))];
    assert StartsWith("A=1", "A=");
    assert VariableExists("A", ["A=1"]);
    assert !StartsWith("A=1", "B=");
    assert !VariableExists("B", ["A=1"]);
    assert Assignment("B", Str("2")) == "B=2\n";
    assert vars[1..][1..] == [];
  }

  lemma SortUnterminated()
    ensures SortBy(Casefold, ["A=1", "B=2\n"]) == ["A=1", "B=2\n"]
  {
    assert Casefold("A=1") == "a=1";
    assert Casefold("B=2\n") == "b=2\n";
    assert LeBy(Casefold, "A=1", "B=2\n");
    assert Insert(Casefold, "B=2\n", ["A=1"]) == ["A=1"] + Insert(Casefold, "B=2\n", []);
  }

  lemma CheckedUnterminated()
    ensures CheckedAsWritten([Entry("A", Str("1")), Entry("B", Str("2"))], Some("A=1"), Casefold)
              == WriteLines(["A=1", "B=2\n"])
  {
    ReadUnterminated();
    AppendToUnterminated();
    SortUnterminated();
  }

  lemma WriteMerged()
    ensures WriteLines(["A=1", "B=2\n"]) == "A=1B=2\n"
  {
    assert WriteLines(["A=1", "B=2\n"]) == "A=1" + ("B=2\n" + WriteLines([]));
  }

  /** A file whose last line has no newline loses a variable it was given:
      the appended line is sorted after the unterminated one and the two
      are written as a single line. */
  lemma MissingNewlineLosesVariable()
    ensures CheckedAsWritten([Entry("A", Str("1")), Entry("B", Str("2"))], Some("A=1"), Casefold) == "A=1B=2\n"
    ensures !VariableExists("B", ReadLines("A=1B=2\n"))
  {
    CheckedUnterminated();
    WriteMerged();
    MergedLineHidesB();
  }

  /** The merged line defines `A` only. */
  lemma MergedLineHidesB()
    ensures !VariableExists("B", ReadLines("A=1B=2\n"))
  {
    UnterminatedLineMerges();
    WriteMerged();
    assert !StartsWith("A=1B=2\n", "B=");
  }

  /** The first phase with the last line terminated before anything is
      appended: the corrected program. */
  function Checked(vars: Variables, file: Option<string>, key: string -> string): string {
    match file
    case None => WriteLines(GenerateLines(vars))
    case Some(text) => WriteLines(SortBy(key, CheckForMissing(vars, Terminate(ReadLines(text)))))
  }

  /** After the first phase the file reads back as complete lines, sorted by
      `key` when the file existed, and every variable of the configuration is
      defined in it. */
  lemma CheckedDefinesAll(vars: Variables, file: Option<string>, key: string -> string, n: int)
    requires WellFormed(vars) && 0 <= n < |vars|
    ensures AllTerminated(ReadLines(Checked(vars, file, key)))
    ensures file.Some? ==> SortedBy(key, ReadLines(Checked(vars, file, key)))
    ensures VariableExists(vars[n].key, ReadLines(Checked(vars, file, key)))
  {
    match file
    case None =>
      var lines := GenerateLines(vars);
      forall i | 0 <= i < |lines| ensures IsTerminatedLine(lines[i]) {
        AssignmentTerminated(vars[i].key, vars[i].value);
      }
      ReadWriteLines(lines);
    case Some(text) =>
      var read := Terminate(ReadLines(text));
      TerminateReadLines(text);
      var checked := CheckForMissing(vars, read);
      CheckForMissingAppends(vars, read);
      MissingLinesTerminated(vars, read);
      assert AllTerminated(checked) by {
        forall i | 0 <= i < |checked| ensures IsTerminatedLine(checked[i]) {
          if i >= |read| {
            assert checked[i] == MissingLines(vars, read)[i - |read|];
          }
        }
      }
      CheckForMissingDefinesAll(vars, read, n);
      var sorted := SortBy(key, checked);
      SortByFacts(key, checked, "");
      PermutationKeeps(checked, sorted, vars[n].key);
      ReadWriteLines(sorted);
  }

  /** The reset phase: re-read the file, rewrite the lines of `vars`, sort. */
  function UpdateFile(vars: Variables, text: string, key: string -> string): string {
    WriteLines(SortBy(key, UpdateExisting(vars, ReadLines(text))))
  }

  /** A reset of a file of complete lines and well-formed variables writes
      a file that reads back as the rewritten lines, sorted by `key`. */
  lemma UpdateFileLines(vars: Variables, text: string, key: string -> string)
    requires WellFormed(vars) && AllTerminated(ReadLines(text))
    ensures SortedBy(key, ReadLines(UpdateFile(vars, text, key)))
    ensures multiset(ReadLines(UpdateFile(vars, text, key))) == multiset(UpdateExisting(vars, ReadLines(text)))
  {
    var lines := ReadLines(text);
    var updated := UpdateExisting(vars, lines);
    forall i | 0 <= i < |updated| ensures IsTerminatedLine(updated[i]) {
      if q :| 0 <= q < |vars| && Contains(lines[i], vars[q].key) {
        var p := LastMatching(vars, lines[i], q);
        UpdateExistingRewrites(vars, lines, i, p);
        AssignmentTerminated(vars[p].key, vars[p].value);
      } else {
        UpdateExistingKeeps(vars, lines, i);
      }
    }
    var sorted := SortBy(key, updated);
    SortByFacts(key, updated, "");
    PermutationKeeps(updated, sorted, "");
    ReadWriteLines(sorted);
  }

  /** The last variable from `q` on whose name occurs in `line`. */
  lemma {:induction false} LastMatching(vars: Variables, line: string, q: int) returns (p: int)
    requires 0 <= q < |vars| && Contains(line, vars[q].key)
    ensures q <= p < |vars| && Contains(line, vars[p].key)
    ensures forall r :: p < r < |vars| ==> !Contains(line, vars[r].key)
    decreases |vars| - q
  {
    if r :| q < r < |vars| && Contains(line, vars[r].key) {
      p := LastMatching(vars, line, r);
    } else {
      p := q;
    }
  }

  /** A `store_true` flag as `add_argument` declares it, with the
      destination given explicitly or not. */
  datatype Flag = Flag(option: string, dest: Option<string>)

  /** `option.lstrip('-')`. */
  function StripDashes(s: string): (r: string)
    ensures r == [] || r[0] != '-'
  {
    if s != [] && s[0] == '-' then StripDashes(s[1..]) else s
  }

  /** `s.replace('-', '_')`. */
  function Underscores(s: string): (r: string)
    ensures |r| == |s| && '-' !in r
  {
    if s == [] then [] else [if s[0] == '-' then '_' else s[0]] + Underscores(s[1..])
  }

  lemma {:induction false} UnderscoresConcat(a: string, b: string)
    ensures Underscores(a + b) == Underscores(a) + Underscores(b)
  {
    if a != [] {
      assert (a + b)[0] == a[0] && (a + b)[1..] == a[1..] + b;
      UnderscoresConcat(a[1..], b);
    } else {
      assert a + b == b;
    }
  }

  lemma UnderscoresNoDash(s: string)
    requires '-' !in s
    ensures Underscores(s) == s
  {
  }

  /** The attribute name argparse stores a flag under. */
  function Dest(f: Flag): string {
    match f.dest
    case Some(d) => d
    case None => Underscores(StripDashes(f.option))
  }

  type Namespace = map<string, bool>

  /** `parser.parse_args()`: each flag's destination holds whether the flag
      was given. */
  function Parse(flags: seq<Flag>, given: set<string>): (ns: Namespace)
    ensures forall n :: 0 <= n < |flags| ==> Dest(flags[n]) in ns
    ensures forall d :: d in ns ==> exists n :: 0 <= n < |flags| && Dest(flags[n]) == d
  {
    if flags == [] then map[]
    else
      var rest := Parse(flags[1..], given);
      assert forall d :: d in rest ==> exists n :: 0 <= n < |flags| && Dest(flags[n]) == d by {
        forall d | d in rest ensures exists n :: 0 <= n < |flags| && Dest(flags[n]) == d {
          var m :| 0 <= m < |flags| - 1 && Dest(flags[1..][m]) == d;
          assert flags[1..][m] == flags[m + 1];
        }
      }
      assert forall n :: 1 <= n < |flags| ==> Dest(flags[n]) in rest by {
        forall n | 1 <= n < |flags| ensures Dest(flags[n]) in rest {
          assert flags[n] == flags[1..][n - 1];
        }
      }
      rest[Dest(flags[0]) := flags[0].option in given]
  }

  /** `args.name`: `AttributeError` for a name no flag stores. */
  function Attribute(ns: Namespace, name: string): Result<bool> {
    if name in ns then Ok(ns[name]) else Err(AttributeError)
  }

  /** The flags of the utils version, destinations left to argparse. */
  const UtilsFlags := [Flag("--reset", None), Flag("--hard-reset", None)]

  /** The flags of the scripts version as written: `--hard-reset` stored under
      `hard-reset`. */
  const ScriptsFlags := [Flag("--reset", Some("reset")), Flag("--hard-reset", Some("hard-reset"))]

  /** The scripts flags with the destination `check_configuration` reads. */
  const CorrectedScriptsFlags := [Flag("--reset", Some("reset")), Flag("--hard-reset", Some("hard_reset"))]

  /** Which first phase `check_configuration` runs: the source's own, or the
      corrected one that completes the last line before appending. */
  datatype Phase = AsWritten | Corrected

  function FirstPhase(phase: Phase, vars: Variables, file: Option<string>, key: string -> string): string {
    match phase
    case AsWritten => CheckedAsWritten(vars, file, key)
    case Corrected => Checked(vars, file, key)
  }

  /** What `check_configuration` leaves behind: the file it wrote last and
      the exception it raised, if any. */
  datatype Outcome = Outcome(file: string, raised: Option<Error>)

  /** `check_configuration` on one file (`None` when it does not exist yet):
      the first phase, then the hard reset with every default or the soft
      reset with the truthy ones. `AsWritten` is the source's program. */
  function CheckConfiguration(phase: Phase, vars: Variables, file: Option<string>, ns: Namespace, key: string -> string): (o: Outcome)
    ensures o.raised.Some? <==> "hard_reset" !in ns || (!ns["hard_reset"] && "reset" !in ns)
    ensures o.raised.Some? ==> o == Outcome(FirstPhase(phase, vars, file, key), Some(AttributeError))
    ensures "hard_reset" in ns && ns["hard_reset"] ==> o.file == UpdateFile(vars, FirstPhase(phase, vars, file, key), key)
    ensures "hard_reset" in ns && !ns["hard_reset"] && "reset" in ns && ns["reset"] ==>
              o.file == UpdateFile(NonEmpty(vars), FirstPhase(phase, vars, file, key), key)
    ensures "hard_reset" in ns && !ns["hard_reset"] && "reset" in ns && !ns["reset"] ==>
              o.file == FirstPhase(phase, vars, file, key)
  {
    var checked := FirstPhase(phase, vars, file, key);
    var hard := Attribute(ns, "hard_reset");
    if hard.Err? then Outcome(checked, Some(hard.error))
    else if hard.value then Outcome(UpdateFile(vars, checked, key), None)
    else
      var soft := Attribute(ns, "reset");
      if soft.Err? then Outcome(checked, Some(soft.error))
      else if soft.value then Outcome(UpdateFile(NonEmpty(vars), checked, key), None)
      else Outcome(checked, None)
  }

  lemma StripHardReset()
    ensures StripDashes("--hard-reset") == "hard-reset"
  {
    assert "--hard-reset"[1..] == "-hard-reset" && "-hard-reset"[1..] == "hard-reset";
    assert StripDashes("hard-reset") == "hard-reset";
  }

  lemma UnderscoreDashReset()
    ensures Underscores("-reset") == "_reset"
  {
    assert "-reset"[1..] == "reset";
    UnderscoresNoDash("reset");
    assert Underscores("-reset") == "_" + Underscores("reset");
  }

  lemma UnderscoreHardReset()
    ensures Underscores("hard-reset") == "hard_reset"
  {
    assert "hard-reset" == "hard" + "-reset";
    UnderscoresConcat("hard", "-reset");
    UnderscoresNoDash("hard");
    UnderscoreDashReset();
    assert "hard" + "_reset" == "hard_reset";
  }

  /** argparse turns `--hard-reset` into `hard_reset`. */
  lemma HardResetDest()
    ensures Dest(Flag("--hard-reset", None)) == "hard_reset"
  {
    StripHardReset();
    UnderscoreHardReset();
  }

  lemma ResetDest()
    ensures Dest(Flag("--reset", None)) == "reset"
  {
    assert "--reset"[1..] == "-reset" && "-reset"[1..] == "reset";
    assert StripDashes("reset") == "reset";
    assert StripDashes("--reset") == "reset";
    UnderscoresNoDash("reset");
  }

  lemma UtilsDests(given: set<string>)
    ensures Parse(UtilsFlags, given) == map["hard_reset" := "--hard-reset" in given, "reset" := "--reset" in given]
  {
    HardResetDest();
    ResetDest();
    assert UtilsFlags[1..][1..] == [];
  }

  lemma ScriptsDests(given: set<string>)
    ensures Parse(ScriptsFlags, given) == map["hard-reset" := "--hard-reset" in given, "reset" := "--reset" in given]
  {
    assert ScriptsFlags[1..][1..] == [];
  }

  /** Invoked through the scripts parser, `check_configuration` always stops
      with `AttributeError` right after the first phase: no reset ever
      happens. */
  lemma ScriptsCheckRaises(phase: Phase, vars: Variables, file: Option<string>, given: set<string>, key: string -> string)
    ensures CheckConfiguration(phase, vars, file, Parse(ScriptsFlags, given), key) ==
              Outcome(FirstPhase(phase, vars, file, key), Some(AttributeError))
  {
    ScriptsDests(given);
    assert "hard_reset" != "hard-reset";
  }

  /** With the corrected destination the scripts parser gives the namespace
      the utils parser gives, and `check_configuration` raises nothing. */
  lemma CorrectedScriptsFlagsWork(phase: Phase, vars: Variables, file: Option<string>, given: set<string>, key: string -> string)
    ensures Parse(CorrectedScriptsFlags, given) == Parse(UtilsFlags, given)
    ensures CheckConfiguration(phase, vars, file, Parse(CorrectedScriptsFlags, given), key).raised.None?
  {
    UtilsDests(given);
  }

  /** The source's `check_configuration` itself loses the variable: asked
      for no reset, it leaves the merged line behind. */
  lemma CheckConfigurationLosesVariable()
    ensures var o := CheckConfiguration(AsWritten, [Entry("A", Str("1")), Entry("B", Str("2"))], Some("A=1"),
                                        map["hard_reset" := false, "reset" := false], Casefold);
            o == Outcome("A=1B=2\n", None) && !VariableExists("B", ReadLines(o.file))
  {
    MissingNewlineLosesVariable();
  }

  /** The corrected `check_configuration`, asked for no reset, leaves every
      variable of the configuration defined. */
  lemma CorrectedCheckDefinesAll(vars: Variables, file: Option<string>, ns: Namespace, key: string -> string, n: int)
    requires WellFormed(vars) && 0 <= n < |vars|
    requires "hard_reset" in ns && !ns["hard_reset"] && "reset" in ns && !ns["reset"]
    ensures VariableExists(vars[n].key, ReadLines(CheckConfiguration(Corrected, vars, file, ns, key).file))
  {
    CheckedDefinesAll(vars, file, key, n);
  }

  /** The `.env` files, by configuration name. */
  type Files = map<string, string>

  /** What a run of the driver leaves: the files and the exception that
      stopped it, if any. */
  datatype Run = Run(files: Files, raised: Option<Error>)

  function CheckOne(phase: Phase, files: Files, name: string, vars: Variables, ns: Namespace, key: string -> string): (r: Run)
    ensures r.files.Keys == files.Keys + {name}
  {
    var o := CheckConfiguration(phase, vars, if name in files then Some(files[name]) else None, ns, key);
    Run(files[name := o.file], o.raised)
  }

  /** Every configuration in turn, stopping at the first exception. */
  function CheckAll(phase: Phase, configs: seq<Entry<string, Variables>>, files: Files, ns: Namespace, key: string -> string): (r: Run)
    ensures files.Keys <= r.files.Keys
    decreases |configs|
  {
    if configs == [] then Run(files, None)
    else
      var one := CheckOne(phase, files, configs[0].key, configs[0].value, ns, key);
      if one.raised.Some? then one else CheckAll(phase, configs[1..], one.files, ns, key)
  }

  /** A run that raises nothing leaves a file for every configuration. */
  lemma {:induction false} CheckAllWritesEvery(phase: Phase, configs: seq<Entry<string, Variables>>, files: Files, ns: Namespace, key: string -> string, n: int)
    requires 0 <= n < |configs| && CheckAll(phase, configs, files, ns, key).raised.None?
    ensures configs[n].key in CheckAll(phase, configs, files, ns, key).files
    decreases |configs|
  {
    var one := CheckOne(phase, files, configs[0].key, configs[0].value, ns, key);
    if n > 0 {
      CheckAllWritesEvery(phase, configs[1..], one.files, ns, key, n - 1);
    }
  }

  /** The driver (`generate` in the utils version, `main` in the scripts
      version): a named configuration alone, `SystemExit` for a name it
      does not know, otherwise every configuration. */
  function Generate(phase: Phase, configs: seq<Entry<string, Variables>>, files: Files, ns: Namespace,
                    configName: Option<string>, key: string -> string): (r: Run)
    ensures configName.Some? && configName.value != [] && configName.value !in Keys(configs) ==>
              r == Run(files, Some(SystemExit))
    ensures configName.Some? && configName.value != [] && configName.value in Keys(configs) ==>
              r.files.Keys == files.Keys + {configName.value}
  {
    if configName.Some? && configName.value != [] then
      var chosen := Find(configs, configName.value);
      if chosen.None? then Run(files, Some(SystemExit))
      else CheckOne(phase, files, configName.value, chosen.value, ns, key)
    else CheckAll(phase, configs, files, ns, key)
  }

  /** Through the utils parser the driver raises only for an unknown name. */
  lemma UtilsGenerateRaisesOnlyOnUnknownName(phase: Phase, configs: seq<Entry<string, Variables>>, files: Files,
                                             given: set<string>, configName: Option<string>)
    ensures Generate(phase, configs, files, Parse(UtilsFlags, given), configName, Casefold).raised.Some? <==>
              configName.Some? && configName.value != [] && configName.value !in Keys(configs)
  {
    UtilsDests(given);
    var ns := Parse(UtilsFlags, given);
    if !(configName.Some? && configName.value != []) {
      CheckAllQuiet(phase, configs, files, ns, Casefold);
    }
  }

  lemma {:induction false} CheckAllQuiet(phase: Phase, configs: seq<Entry<string, Variables>>, files: Files, ns: Namespace, key: string -> string)
    requires "hard_reset" in ns && "reset" in ns
    ensures CheckAll(phase, configs, files, ns, key).raised.None?
    decreases |configs|
  {
    if configs != [] {
      var one := CheckOne(phase, files, configs[0].key, configs[0].value, ns, key);
      CheckAllQuiet(phase, configs[1..], one.files, ns, key);
    }
  }

  /** Through the scripts parser as written, a run over all configurations
      stops with `AttributeError` after the first one's first phase. */
  lemma ScriptsGenerateStopsAtFirst(configs: seq<Entry<string, Variables>>, files: Files, given: set<string>)
    requires configs != []
    ensures Generate(AsWritten, configs, files, Parse(ScriptsFlags, given), None, Ordinal)
              == Run(files[configs[0].key := CheckedAsWritten(configs[0].value,
                                                     if configs[0].key in files then Some(files[configs[0].key]) else None,
                                                     Ordinal)],
                     Some(AttributeError))
  {
    var name := configs[0].key;
    ScriptsCheckRaises(AsWritten, configs[0].value, if name in files then Some(files[name]) else None, given, Ordinal);
  }

  /** The shipped configurations. */
  const Database: Variables := [
    Entry("DB_NAME", Str("railway")),
    Entry("DB_USER", Str("postgres")),
    Entry("DB_PASS", Str("")),
    Entry("DB_HOST", Str("")),
    Entry("DB_PORT", Str("6563"))
  ]

  const MonteCarloProperties: Variables := [
    Entry("step_size", Float("0.025", false)),
    Entry("num_requests", Int(100)),
    Entry("cache_type", Str("LRUCache")),
    Entry("cache_param_increment", Int(10))
  ]

  const DefaultConfigurations: seq<Entry<string, Variables>> := [
    Entry("database", Database),
    Entry("MonteCarlo-Properties", MonteCarloProperties)
  ]

  /** Filtering five entries of which the third and fourth are empty. */
  lemma NonEmptyFive(v: Variables)
    requires |v| == 5 && Truthy(v[0].value) && Truthy(v[1].value) && Truthy(v[4].value)
    requires !Truthy(v[2].value) && !Truthy(v[3].value)
    ensures NonEmpty(v) == [v[0], v[1], v[4]]
  {
    assert NonEmpty(v[4..]) == [v[4]] by {
      assert v[4..][1..] == [];
    }
    assert NonEmpty(v[2..]) == [v[4]] by {
      assert v[2..][1..] == v[3..] && v[3..][1..] == v[4..];
    }
    assert v[1..][1..] == v[2..];
  }

  /** The soft reset of the database configuration rewrites only the name,
      user and port: the password and host defaults are empty. */
  lemma SoftResetSkipsEmptyDefaults()
    ensures NonEmpty(Database) == [Database[0], Database[1], Database[4]]
  {
    var d := Database;
    assert Truthy(d[0].value) && Truthy(d[1].value) && Truthy(d[4].value);
    assert !Truthy(d[2].value) && !Truthy(d[3].value);
    NonEmptyFive(d);
  }
}
