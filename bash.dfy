/** The bash relay loop (`enter_bash_mode`): reads lines, follows `cd `
    itself, hands every other line to a shell in the tracked directory and
    collects what it reports. */
module Bash {
  import opened PyStr
  import opened Console

  const ExitToken := "/bq"
  const CdPrefix := "cd "

  /** What `subprocess.run(line, shell=True, text=True, capture_output=True,
      cwd=dir)` yields: the captured streams, or the message of the exception
      it raised. */
  datatype ShellResult = Completed(stdout: string, stderr: string) | Failed(message: string)

  /** The operating system as the loop sees it. `dirs` are the directories
      that exist; `resolve(cwd, path)` is the absolute path `os.getcwd()`
      reports after `os.chdir(path)` from `cwd`; `expandUser` is
      `os.path.expanduser`; `shell` runs a command line in a directory. */
  datatype Host = Host(dirs: set<string>, resolve: (string, string) -> string,
                       expandUser: string -> string, shell: (string, string) -> ShellResult)

  /** The tracked directory and the lines appended to `bash_output`. */
  datatype Relay = Relay(dir: string, output: seq<string>)

  /** The line a successful `cd` appends. */
  function Changed(path: string): string {
    "Changed directory to " + path
  }

  /** The line a `cd` to a missing directory appends. */
  function NoSuchDirectory(target: string): string {
    "bash: cd: " + target + ": No such file or directory"
  }

  /** What the shell's report of one command appends: the stripped standard
      output when it is non-empty, then the stripped standard error, marked,
      when that is non-empty; or the message of the exception. */
  function Report(r: ShellResult): (lines: seq<string>)
    ensures |lines| <= 2
  {
    match r
    case Failed(message) => ["Error executing bash command: " + message]
    case Completed(out, err) =>
      (if out != "" then [Strip(out)] else []) + (if err != "" then ["Error: " + Strip(err)] else [])
  }

  /** The directory `os.chdir` aims at for a `cd ` line read in `dir`. */
  function CdPath(host: Host, dir: string, line: string): string
    requires StartsWith(line, CdPrefix)
  {
    host.resolve(dir, host.expandUser(Strip(line[3..])))
  }

  /** Whether `line`, read in `dir`, is a `cd ` to a directory that exists. */
  predicate Enters(host: Host, dir: string, line: string) {
    StartsWith(line, CdPrefix) && CdPath(host, dir, line) in host.dirs
  }

  /** One non-exit line `line` (already stripped) from directory `dir`. */
  function Step(host: Host, dir: string, line: string): (r: Relay)
    ensures 1 <= |r.output| || !StartsWith(line, CdPrefix)
    ensures |r.output| <= 2
    ensures r.dir == dir || r.dir in host.dirs
  {
    if StartsWith(line, CdPrefix) then
      var target := Strip(line[3..]);
      var path := CdPath(host, dir, line);
      if path in host.dirs then Relay(path, [Changed(path)])
      else Relay(dir, [NoSuchDirectory(target)])
    else
      Relay(dir, Report(host.shell(line, dir)))
  }

  /** A line changes the tracked directory exactly when it enters an
      existing one, and then to the path it names. */
  lemma StepDir(host: Host, dir: string, line: string)
    ensures Enters(host, dir, line) ==> Step(host, dir, line).dir == CdPath(host, dir, line)
    ensures !Enters(host, dir, line) ==> Step(host, dir, line).dir == dir
  {}

  /** Whether the loop leaves at position `i`: end of input, Ctrl-C, or
      exactly the exit token once stripped. */
  predicate Leaves(inputs: seq<Event>, i: nat) {
    i >= |inputs| || inputs[i].Interrupt? || Strip(inputs[i].text) == ExitToken
  }

  /** What the loop does with `inputs` from position `i` on, from directory
      `dir`: the directory it ends in and the lines it appends. */
  function Run(host: Host, dir: string, inputs: seq<Event>, i: nat): Relay
    decreases |inputs| - i
  {
    if Leaves(inputs, i) then Relay(dir, [])
    else
      var step := Step(host, dir, Strip(inputs[i].text));
      var rest := Run(host, step.dir, inputs, i + 1);
      Relay(rest.dir, step.output + rest.output)
  }

  lemma RunContinues(host: Host, dir: string, inputs: seq<Event>, i: nat, prior: seq<string>)
    requires !Leaves(inputs, i)
    ensures var step := Step(host, dir, Strip(inputs[i].text));
      var rest := Run(host, step.dir, inputs, i + 1);
      Relay(rest.dir, prior + Run(host, dir, inputs, i).output) == Relay(rest.dir, (prior + step.output) + rest.output)
      && Run(host, dir, inputs, i).dir == rest.dir
  {
    var step := Step(host, dir, Strip(inputs[i].text));
    var rest := Run(host, step.dir, inputs, i + 1);
    assert prior + (step.output + rest.output) == (prior + step.output) + rest.output;
  }

  /** `enter_bash_mode` from directory `startDir`: returns the newline-join
      of the collected lines, and the directory the process is left in by
      the final `os.chdir(current_dir)`. */
  method EnterBashMode(host: Host, startDir: string, inputs: seq<Event>) returns (result: string, finalDir: string)
    ensures var run := Run(host, startDir, inputs, 0);
      result == Join("\n", run.output) && finalDir == run.dir
  {
    ghost var whole := Run(host, startDir, inputs, 0);
    var currentDir := startDir;
    var bashOutput: seq<string> := [];
    var i := 0;
    while i < |inputs|
      invariant 0 <= i <= |inputs|
      invariant whole == Relay(Run(host, currentDir, inputs, i).dir, bashOutput + Run(host, currentDir, inputs, i).output)
    {
      if inputs[i].Interrupt? {
        break;
      }
      var bashInput := Strip(inputs[i].text);
      if bashInput == ExitToken {
        break;
      }
      ghost var prior, priorDir := bashOutput, currentDir;
      if StartsWith(bashInput, CdPrefix) {
        var newDir := Strip(bashInput[3..]);
        var path := host.resolve(currentDir, host.expandUser(newDir));
        if path in host.dirs {
          currentDir := path;
          bashOutput := bashOutput + [Changed(currentDir)];
        } else {
          bashOutput := bashOutput + [NoSuchDirectory(newDir)];
        }
      } else {
        var r := host.shell(bashInput, currentDir);
        match r {
          case Failed(message) =>
            bashOutput := bashOutput + ["Error executing bash command: " + message];
          case Completed(out, err) =>
            if out != "" {
              bashOutput := bashOutput + [Strip(out)];
            }
            if err != "" {
              bashOutput := bashOutput + ["Error: " + Strip(err)];
            }
            assert bashOutput == prior + Report(r);
        }
      }
      assert bashOutput == prior + Step(host, priorDir, bashInput).output && currentDir == Step(host, priorDir, bashInput).dir;
      RunContinues(host, priorDir, inputs, i, prior);
      i := i + 1;
    }
    assert whole == Relay(currentDir, bashOutput) by {
      assert bashOutput + [] == bashOutput;
    }
    finalDir := currentDir;
    result := Join("\n", bashOutput);
  }

  /** Only the exact token leaves, whatever whitespace surrounds it: any
      other token, `/BQ` included, is run as a command. */
  lemma ExitIsCaseSensitive(inputs: seq<Event>, i: nat, pre: string, token: string, post: string)
    requires i < |inputs| && inputs[i] == Line(pre + token + post)
    requires AllSpace(pre) && AllSpace(post)
    requires token != [] ==> !IsSpace(token[0]) && !IsSpace(token[|token| - 1])
    ensures Leaves(inputs, i) <==> token == ExitToken
  {
    StripPadded(pre, token, post);
  }

  /** The loop ends in the directory it started from or in one that exists. */
  lemma {:induction false} FinalDirExists(host: Host, dir: string, inputs: seq<Event>, i: nat)
    ensures Run(host, dir, inputs, i).dir == dir || Run(host, dir, inputs, i).dir in host.dirs
    decreases |inputs| - i
  {
    if !Leaves(inputs, i) {
      FinalDirExists(host, Step(host, dir, Strip(inputs[i].text)).dir, inputs, i + 1);
    }
  }

  /** Each line appends at most two lines to the output. */
  lemma {:induction false} OutputBound(host: Host, dir: string, inputs: seq<Event>, i: nat)
    requires i <= |inputs|
    ensures |Run(host, dir, inputs, i).output| <= 2 * (|inputs| - i)
    decreases |inputs| - i
  {
    if !Leaves(inputs, i) {
      OutputBound(host, Step(host, dir, Strip(inputs[i].text)).dir, inputs, i + 1);
    }
  }

  /** Started at `i`, the loop leaves at `m`: every event before `m` is a
      line it handles. */
  predicate LeavesAt(inputs: seq<Event>, i: nat, m: nat) {
    && i <= m && Leaves(inputs, m)
    && forall k :: i <= k < m ==> !Leaves(inputs, k)
  }

  /** The stripped line read at `k` (empty where there is none). */
  function LineAt(inputs: seq<Event>, k: nat): string {
    if k < |inputs| then Strip(TextOf(inputs[k])) else ""
  }

  /** The directory tracked when the line at `j` is read, started at `i` in
      `dir`. */
  function DirAt(host: Host, dir: string, inputs: seq<Event>, i: nat, j: nat): string
    decreases j - i
  {
    if j <= i || Leaves(inputs, i) then dir
    else DirAt(host, Step(host, dir, Strip(inputs[i].text)).dir, inputs, i + 1, j)
  }

  lemma {:induction false} RunThrough(host: Host, dir: string, inputs: seq<Event>, i: nat, j: nat)
    requires i <= j && forall k :: i <= k < j ==> !Leaves(inputs, k)
    ensures Run(host, dir, inputs, i).dir == Run(host, DirAt(host, dir, inputs, i, j), inputs, j).dir
    decreases j - i
  {
    if i < j {
      assert !Leaves(inputs, i);
      RunThrough(host, Step(host, dir, Strip(inputs[i].text)).dir, inputs, i + 1, j);
    }
  }

  /** When no line before the loop leaves is a `cd ` into an existing
      directory, the loop ends where it started: the final `os.chdir`
      changes nothing. */
  lemma {:induction false} NoEnterKeepsDir(host: Host, dir: string, inputs: seq<Event>, i: nat, m: nat)
    requires LeavesAt(inputs, i, m)
    requires forall k :: i <= k < m ==> !Enters(host, dir, LineAt(inputs, k))
    ensures Run(host, dir, inputs, i).dir == dir
    decreases m - i
  {
    if i < m {
      assert !Leaves(inputs, i) && !Enters(host, dir, LineAt(inputs, i));
      StepDir(host, dir, LineAt(inputs, i));
      NoEnterKeepsDir(host, dir, inputs, i + 1, m);
    }
  }

  /** The process is left in the directory the last successful `cd` entered:
      if the line at `j` enters a directory and no later line before the loop
      leaves enters another, the loop ends in that directory. */
  lemma LastCdIsKept(host: Host, dir: string, inputs: seq<Event>, i: nat, j: nat, m: nat)
    requires LeavesAt(inputs, i, m) && i <= j < m
    requires Enters(host, DirAt(host, dir, inputs, i, j), LineAt(inputs, j))
    requires forall k :: j < k < m ==>
      !Enters(host, CdPath(host, DirAt(host, dir, inputs, i, j), LineAt(inputs, j)), LineAt(inputs, k))
    ensures Run(host, dir, inputs, i).dir == CdPath(host, DirAt(host, dir, inputs, i, j), LineAt(inputs, j))
  {
    var d := DirAt(host, dir, inputs, i, j);
    var line := LineAt(inputs, j);
    assert !Leaves(inputs, j);
    RunThrough(host, dir, inputs, i, j);
    StepDir(host, d, line);
    NoEnterKeepsDir(host, CdPath(host, d, line), inputs, j + 1, m);
  }

  /** Once stripped, the last character of a non-empty line is not a space. */
  lemma {:induction false} LStripKeepsLast(s: string)
    requires s != [] && !IsSpace(s[|s| - 1])
    ensures LStrip(s) != [] && LStrip(s)[|LStrip(s)| - 1] == s[|s| - 1]
  {
    if IsSpace(s[0]) {
      LStripKeepsLast(s[1..]);
    }
  }

  /** A line that takes the `cd ` branch always names a non-empty target,
      since stripping removed any trailing space after the prefix. */
  lemma CdTargetNonEmpty(raw: string)
    requires StartsWith(Strip(raw), CdPrefix)
    ensures Strip(Strip(raw)[3..]) != ""
  {
    var line := Strip(raw);
    StripEnds(raw);
    assert line[2] == ' ';
    assert |line| > 3;
    var t := line[3..];
    assert t[|t| - 1] == line[|line| - 1];
    LStripKeepsLast(t);
  }
}
