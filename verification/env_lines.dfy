/** The line editing behind the `.env` generator: a configuration file is
    the list of lines `readlines` returns, a configuration is the dict of
    variable names to default values, in insertion order. */
module EnvLines {
  import opened Common
  import opened OrderedDict
  import opened Text

  /** The kinds of default value the configurations hold. A float keeps the
      text Python prints for it and whether it is zero. */
  datatype Value = NoneValue | Str(s: string) | Int(i: int) | Float(repr: string, zero: bool)

  /** `str(value)`, what an f-string writes. */
  function Format(v: Value): string {
    match v
    case NoneValue => "None"
    case Str(s) => s
    case Int(i) => IntToString(i)
    case Float(repr, _) => repr
  }

  /** Python truthiness of a default value. */
  predicate Truthy(v: Value) {
    match v
    case NoneValue => false
    case Str(s) => s != []
    case Int(i) => i != 0
    case Float(_, zero) => !zero
  }

  type Variables = seq<Entry<string, Value>>

  /** Names that can be read back from their own lines: no `=` or newline in
      a name, no newline in a value, no name twice. */
  predicate WellFormed(vars: Variables) {
    Valid(vars)
    && forall n :: 0 <= n < |vars| ==>
         '=' !in vars[n].key && '\n' !in vars[n].key && '\n' !in Format(vars[n].value)
  }

  /** The line `name=value` and its newline, `None` written as nothing. */
  function Assignment(name: string, v: Value): (line: string)
    ensures StartsWith(line, name + "=")
    ensures EndsInNewline(line)
  {
    var line := name + "=" + (if v.NoneValue? then "" else Format(v)) + "\n";
    assert line[..|name + "="|] == name + "=";
    line
  }

  /** A line built from a name and value without newlines is a complete line. */
  lemma AssignmentTerminated(name: string, v: Value)
    requires '\n' !in name && '\n' !in Format(v)
    ensures IsTerminatedLine(Assignment(name, v))
  {
    var line := Assignment(name, v);
    var body := name + "=" + (if v.NoneValue? then "" else Format(v));
    assert line == body + "\n";
    assert line[..|line| - 1] == body;
  }

  /** `variable_exists`: some line starts with `name=`. */
  function VariableExists(name: string, lines: seq<string>): (b: bool)
    ensures b <==> exists i :: 0 <= i < |lines| && StartsWith(lines[i], name + "=")
  {
    if lines == [] then false
    else if StartsWith(lines[0], name + "=") then true
    else
      var rest := VariableExists(name, lines[1..]);
      assert rest <==> exists i :: 1 <= i < |lines| && StartsWith(lines[i], name + "=") by {
        forall i | 1 <= i < |lines| ensures lines[i] == lines[1..][i - 1] { }
      }
      rest
  }

  /** `append_variable` of the utils version: `name=` alone when the value
      is `None` or prints as nothing. It always adds the line
      `Assignment` builds. */
  function AppendVariable(name: string, v: Value, lines: seq<string>): (r: seq<string>)
    ensures r == lines + [Assignment(name, v)]
  {
    var line := if !v.NoneValue? && Format(v) != "" then name + "=" + Format(v) + "\n" else name + "=\n";
    assert name + "=" + "" + "\n" == name + "=\n";
    lines + [line]
  }

  /** `append_variable` of the scripts version, which tests only for `None`:
      it appends the same line. */
  function ScriptsAppendVariable(name: string, v: Value, lines: seq<string>): (r: seq<string>)
    ensures r == AppendVariable(name, v, lines)
  {
    lines + [if !v.NoneValue? then name + "=" + Format(v) + "\n" else name + "=\n"]
  }

  /** `check_for_missing_variables` after the read: each variable, in dict
      order, that no line defines yet gets its line appended. */
  function CheckForMissing(vars: Variables, lines: seq<string>): (r: seq<string>)
    ensures lines <= r
    decreases |vars|
  {
    if vars == [] then lines
    else
      var next := if VariableExists(vars[0].key, lines) then lines
                  else AppendVariable(vars[0].key, vars[0].value, lines);
      CheckForMissing(vars[1..], next)
  }

  /** A defined variable stays defined when lines are added. */
  lemma ExistsGrows(name: string, a: seq<string>, b: seq<string>)
    requires a <= b && VariableExists(name, a)
    ensures VariableExists(name, b)
  {
    var i :| 0 <= i < |a| && StartsWith(a[i], name + "=");
    assert b[i] == a[i];
  }

  /** Afterwards every variable is defined. */
  lemma {:induction false} CheckForMissingDefinesAll(vars: Variables, lines: seq<string>, n: int)
    requires 0 <= n < |vars|
    ensures VariableExists(vars[n].key, CheckForMissing(vars, lines))
    decreases |vars|
  {
    var next := if VariableExists(vars[0].key, lines) then lines
                else AppendVariable(vars[0].key, vars[0].value, lines);
    if n == 0 {
      if !VariableExists(vars[0].key, lines) {
        assert StartsWith(next[|lines|], vars[0].key + "=");
      }
      ExistsGrows(vars[0].key, next, CheckForMissing(vars, lines));
    } else {
      CheckForMissingDefinesAll(vars[1..], next, n - 1);
    }
  }

  /** The lines of the variables no line of `lines` defines, in dict order. */
  function MissingLines(vars: Variables, lines: seq<string>): (r: seq<string>)
    ensures |r| <= |vars|
  {
    if vars == [] then []
    else
      (if VariableExists(vars[0].key, lines) then [] else [Assignment(vars[0].key, vars[0].value)])
        + MissingLines(vars[1..], lines)
  }

  /** The line of one name never defines another name, when names hold no
      `=`. */
  lemma AssignmentDefinesOnlyItsName(n: string, m: string, v: Value)
    requires '=' !in n && '=' !in m && n != m
    ensures !StartsWith(Assignment(m, v), n + "=")
  {
    var line := Assignment(m, v);
    var want := n + "=";
    assert line[..|m| + 1] == m + "=";
    if |n| < |m| {
      assert line[|n|] == m[|n|] && m[|n|] in m;
      assert want[|n|] == '=';
    } else if |n| > |m| && |want| <= |line| {
      assert line[|m|] == '=';
      assert want[|m|] == n[|m|] && n[|m|] in n;
    } else if |n| == |m| {
      assert line[..|n|] == m && want[..|n|] == n;
      assert line[..|want|][..|n|] == m;
    }
  }

  /** Appending the line of a name outside `vars` changes nothing about which
      of them are missing. */
  lemma {:induction false} MissingLinesAfter(vars: Variables, lines: seq<string>, m: string, v: Value)
    requires WellFormed(vars) && '=' !in m && m !in Keys(vars)
    ensures MissingLines(vars, lines + [Assignment(m, v)]) == MissingLines(vars, lines)
    decreases |vars|
  {
    if vars != [] {
      var n := vars[0].key;
      assert Keys(vars)[0] == n;
      AssignmentDefinesOnlyItsName(n, m, v);
      var more := lines + [Assignment(m, v)];
      assert VariableExists(n, more) == VariableExists(n, lines) by {
        if VariableExists(n, more) {
          var i :| 0 <= i < |more| && StartsWith(more[i], n + "=");
          assert i < |lines| && more[i] == lines[i];
        }
        if VariableExists(n, lines) {
          ExistsGrows(n, lines, more);
        }
      }
      WellFormedTail(vars);
      assert m !in Keys(vars[1..]) by {
        assert Keys(vars[1..]) == Keys(vars)[1..];
      }
      MissingLinesAfter(vars[1..], lines, m, v);
    }
  }

  lemma WellFormedTail(vars: Variables)
    requires WellFormed(vars) && vars != []
    ensures WellFormed(vars[1..])
    ensures vars[0].key !in Keys(vars[1..])
  {
    DistinctTail(Keys(vars));
    DistinctHeadNotInTail(Keys(vars));
    assert Keys(vars[1..]) == Keys(vars)[1..];
    forall n | 0 <= n < |vars| - 1
      ensures '=' !in vars[1..][n].key && '\n' !in vars[1..][n].key && '\n' !in Format(vars[1..][n].value)
    {
      assert vars[1..][n] == vars[n + 1];
    }
  }

  /** With well-formed names, the file keeps its lines as a prefix and gains
      exactly one line per variable it lacked, in dict order. */
  lemma {:induction false} CheckForMissingAppends(vars: Variables, lines: seq<string>)
    requires WellFormed(vars)
    ensures CheckForMissing(vars, lines) == lines + MissingLines(vars, lines)
    decreases |vars|
  {
    if vars != [] {
      var e := vars[0];
      WellFormedTail(vars);
      if VariableExists(e.key, lines) {
        CheckForMissingAppends(vars[1..], lines);
      } else {
        var next := lines + [Assignment(e.key, e.value)];
        CheckForMissingAppends(vars[1..], next);
        MissingLinesAfter(vars[1..], lines, e.key, e.value);
      }
    }
  }

  /** The reset loop on one line: every variable whose name occurs anywhere
      in the original `line` overwrites the current text, so the last such
      variable wins. */
  function UpdateLine(vars: Variables, line: string, current: string): string
    decreases |vars|
  {
    if vars == [] then current
    else
      var next := if Contains(line, vars[0].key) then Assignment(vars[0].key, vars[0].value) else current;
      UpdateLine(vars[1..], line, next)
  }

  /** The loop leaves a line in which no name occurs as it was. */
  lemma {:induction false} UpdateLineNoMatch(vars: Variables, line: string, current: string)
    requires forall q :: 0 <= q < |vars| ==> !Contains(line, vars[q].key)
    ensures UpdateLine(vars, line, current) == current
    decreases |vars|
  {
    if vars != [] {
      var rest := vars[1..];
      forall q | 0 <= q < |rest| ensures !Contains(line, rest[q].key) {
        assert rest[q] == vars[q + 1];
      }
      UpdateLineNoMatch(rest, line, current);
    }
  }

  /** Otherwise the line becomes the line of the last variable whose name
      occurs in it. */
  lemma {:induction false} UpdateLineLastMatch(vars: Variables, line: string, current: string, p: int)
    requires 0 <= p < |vars| && Contains(line, vars[p].key)
    requires forall q :: p < q < |vars| ==> !Contains(line, vars[q].key)
    ensures UpdateLine(vars, line, current) == Assignment(vars[p].key, vars[p].value)
    decreases |vars|
  {
    var rest := vars[1..];
    var next := if Contains(line, vars[0].key) then Assignment(vars[0].key, vars[0].value) else current;
    if p == 0 {
      forall q | 0 <= q < |rest| ensures !Contains(line, rest[q].key) {
        assert rest[q] == vars[q + 1];
      }
      UpdateLineNoMatch(rest, line, next);
    } else {
      assert rest[p - 1] == vars[p];
      forall q | p - 1 < q < |rest| ensures !Contains(line, rest[q].key) {
        assert rest[q] == vars[q + 1];
      }
      UpdateLineLastMatch(rest, line, next, p - 1);
    }
  }

  /** `update_existing_variables` after the read: the reset loop on every
      line. */
  function UpdateExisting(vars: Variables, lines: seq<string>): (r: seq<string>)
    ensures |r| == |lines|
  {
    seq(|lines|, i requires 0 <= i < |lines| => UpdateLine(vars, lines[i], lines[i]))
  }

  /** The line count is kept and a line in which no name occurs is
      unchanged. */
  lemma UpdateExistingKeeps(vars: Variables, lines: seq<string>, i: int)
    requires 0 <= i < |lines|
    requires forall q :: 0 <= q < |vars| ==> !Contains(lines[i], vars[q].key)
    ensures UpdateExisting(vars, lines)[i] == lines[i]
  {
    UpdateLineNoMatch(vars, lines[i], lines[i]);
  }

  /** A line in which some name occurs becomes the line of the last variable
      whose name occurs in it. */
  lemma UpdateExistingRewrites(vars: Variables, lines: seq<string>, i: int, p: int)
    requires 0 <= i < |lines| && 0 <= p < |vars| && Contains(lines[i], vars[p].key)
    requires forall q :: p < q < |vars| ==> !Contains(lines[i], vars[q].key)
    ensures UpdateExisting(vars, lines)[i] == Assignment(vars[p].key, vars[p].value)
  {
    UpdateLineLastMatch(vars, lines[i], lines[i], p);
  }

  /** The name test is a substring test, so a user's own variable whose name
      contains a default's name is overwritten by the default. */
  lemma UpdateRewritesLongerNames()
    ensures UpdateExisting([Entry("DB_NAME", Str("railway"))], ["MY_DB_NAME=x\n"]) == ["DB_NAME=railway\n"]
  {
    var line := "MY_DB_NAME=x\n";
    assert StartsWith(line[3..], "DB_NAME");
    assert line[1..][1..][1..] == line[3..];
    assert Contains(line, "DB_NAME");
    var vars := [Entry("DB_NAME", Str("railway"))];
    UpdateExistingRewrites(vars, [line], 0, 0);
    assert Assignment("DB_NAME", Str("railway")) == "DB_NAME=railway\n";
  }

  /** The soft-reset selection `{k: v for k, v in variables.items() if v}`:
      the truthy defaults, in dict order. */
  function NonEmpty(vars: Variables): (r: Variables)
    ensures forall e :: e in r <==> e in vars && Truthy(e.value)
  {
    if vars == [] then []
    else (if Truthy(vars[0].value) then [vars[0]] else []) + NonEmpty(vars[1..])
  }

  /** `generate_new_config_file`: one line per variable, in dict order. */
  function GenerateLines(vars: Variables): (lines: seq<string>)
    ensures |lines| == |vars|
    ensures forall n :: 0 <= n < |vars| ==> StartsWith(lines[n], vars[n].key + "=")
  {
    seq(|vars|, n requires 0 <= n < |vars| => Assignment(vars[n].key, vars[n].value))
  }
}
