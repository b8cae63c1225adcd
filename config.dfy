/**
 * The line logic of web.py's parseConfig: the configuration starts with three
 * empty sections, "host", "media" and "parameter"; every line with at least
 * three whitespace-separated tokens sets config[token0][token1] = token2, so a
 * later line for the same section and key wins; shorter lines are skipped; a
 * line naming any other section raises KeyError.
 */
module ServerConfig {
  import opened Common
  import opened Text

  type Config = map<string, map<string, string>>

  const Sections: set<string> := {"host", "media", "parameter"}

  function Initial(): Config {
    map["host" := map[], "media" := map[], "parameter" := map[]]
  }

  /** What the rest of the server relies on: the three sections exist. */
  predicate WellFormed(c: Config) {
    "host" in c && "media" in c && "parameter" in c
  }

  /** What one line asks for. */
  datatype Setting = Skip | Set(section: string, key: string, value: string)

  /** line.strip().split(): fewer than three tokens are skipped, the rest sets token0/token1 to token2. */
  function Parse(line: string): Setting {
    var t := Words(Strip(line));
    if |t| < 3 then Skip else Set(t[0], t[1], t[2])
  }

  /** The line sets config[section][key]. */
  predicate Assigns(line: string, section: string, key: string) {
    var e := Parse(line);
    e.Set? && e.section == section && e.key == key
  }

  /** The line has three tokens but names no section. */
  predicate Misplaced(line: string) {
    var e := Parse(line);
    e.Set? && e.section !in Sections
  }

  /** One pass of the loop body. */
  function Apply(c: Config, e: Setting): Result<Config> {
    match e
    case Skip => Success(c)
    case Set(section, key, value) =>
      if section !in c then Failure(UnknownSection(section))
      else Success(c[section := c[section][key := value]])
  }

  /** The configuration after reading every line, in order. */
  function Load(lines: seq<string>): Result<Config>
    decreases |lines|
  {
    if lines == [] then Success(Initial())
    else
      match Load(lines[..|lines| - 1])
      case Failure(f) => Failure(f)
      case Success(c) => Apply(c, Parse(lines[|lines| - 1]))
  }

  /** parseConfig's loop over the lines of the configuration file. */
  method ParseConfig(lines: seq<string>) returns (r: Result<Config>)
    ensures r == Load(lines)
  {
    var config := Initial();
    for i := 0 to |lines|
      invariant Load(lines[..i]) == Success(config)
    {
      assert lines[..i + 1][..i] == lines[..i];
      var t := Words(Strip(lines[i]));
      if |t| < 3 {
        continue;
      }
      if t[0] !in config {
        LoadStaysFailed(lines, i + 1);
        return Failure(UnknownSection(t[0]));
      }
      config := config[t[0] := config[t[0]][t[1] := t[2]]];
    }
    assert lines[..|lines|] == lines;
    return Success(config);
  }

  /** Once a line has raised, reading more lines does not recover. */
  lemma {:induction false} LoadStaysFailed(lines: seq<string>, n: nat)
    requires n <= |lines|
    requires Load(lines[..n]).Failure?
    ensures Load(lines) == Load(lines[..n])
    decreases |lines| - n
  {
    if n < |lines| {
      assert lines[..n + 1][..n] == lines[..n];
      LoadStaysFailed(lines, n + 1);
    } else {
      assert lines[..n] == lines;
    }
  }

  /** A loaded configuration has exactly the three sections. */
  lemma {:induction false} LoadedSections(lines: seq<string>)
    requires Load(lines).Success?
    ensures Load(lines).value.Keys == Sections
    decreases |lines|
  {
    if lines != [] {
      LoadedSections(lines[..|lines| - 1]);
    }
  }

  /** Loading fails exactly when some line names a section that does not exist. */
  lemma {:induction false} LoadFailsIff(lines: seq<string>)
    ensures Load(lines).Failure? <==> exists i | 0 <= i < |lines| :: Misplaced(lines[i])
    decreases |lines|
  {
    if lines != [] {
      var init := lines[..|lines| - 1];
      LoadFailsIff(init);
      if Load(init).Success? {
        LoadedSections(init);
      }
      if exists i | 0 <= i < |init| :: Misplaced(init[i]) {
        var i :| 0 <= i < |init| && Misplaced(init[i]);
        assert lines[i] == init[i];
      }
      if exists i | 0 <= i < |lines| :: Misplaced(lines[i]) {
        var i :| 0 <= i < |lines| && Misplaced(lines[i]);
        if i < |init| {
          assert init[i] == lines[i];
        }
      }
    }
  }

  /** An entry exists exactly when some line assigns it. */
  lemma {:induction false} LoadedEntryIff(lines: seq<string>, section: string, key: string)
    requires Load(lines).Success?
    ensures var c := Load(lines).value;
      section in c && key in c[section] <==> exists i | 0 <= i < |lines| :: Assigns(lines[i], section, key)
    decreases |lines|
  {
    if lines != [] {
      var init, last := lines[..|lines| - 1], lines[|lines| - 1];
      LoadedEntryIff(init, section, key);
      var c0 := Load(init).value;
      var c := Load(lines).value;
      if !Assigns(last, section, key) {
        assert section in c && key in c[section] <==> section in c0 && key in c0[section];
      }
      if exists i | 0 <= i < |init| :: Assigns(init[i], section, key) {
        var i :| 0 <= i < |init| && Assigns(init[i], section, key);
        assert lines[i] == init[i];
      }
      if exists i | 0 <= i < |lines| :: Assigns(lines[i], section, key) {
        var i :| 0 <= i < |lines| && Assigns(lines[i], section, key);
        if i < |init| {
          assert init[i] == lines[i];
        }
      }
    }
  }

  /** The value of an entry is the third token of the last line that assigns it. */
  lemma {:induction false} LastAssignmentWins(lines: seq<string>, i: nat)
    requires Load(lines).Success?
    requires i < |lines| && Parse(lines[i]).Set?
    requires forall j | i < j < |lines| :: !Assigns(lines[j], Parse(lines[i]).section, Parse(lines[i]).key)
    ensures var e := Parse(lines[i]);
      e.section in Load(lines).value && e.key in Load(lines).value[e.section] &&
      Load(lines).value[e.section][e.key] == e.value
    decreases |lines|
  {
    var init, last := lines[..|lines| - 1], lines[|lines| - 1];
    var e := Parse(lines[i]);
    if i < |lines| - 1 {
      assert init[i] == lines[i];
      forall j | i < j < |init| ensures !Assigns(init[j], e.section, e.key) {
        assert init[j] == lines[j];
      }
      LastAssignmentWins(init, i);
      assert !Assigns(last, e.section, e.key);
    }
  }
}
