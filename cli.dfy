/**
 * The command line of the `mkchoice` binary (src/main.rs:65-162):
 * `Args::parse` turns the argument list into an `Args` record, and
 * `Args::into_chooser` builds the `Chooser` that is then presented.
 */
module Cli {
  import opened Wrappers
  import opened Decimal
  import opened Selector

  /** `struct Args` (src/main.rs:66-74). */
  datatype Args = Args(
    help: bool,
    vanish: bool,
    prompt: Option<string>,
    selection: Option<string>,
    selectedIndex: Option<nat>,
    stdinIndex: Option<nat>,
    choices: seq<string>)

  /** The record `Args::parse` starts from (src/main.rs:77-85). */
  const Init := Args(false, false, None, None, None, None, [])

  /**
   * What a `-` argument records as the place where the lines of standard
   * input go: its position in the argument list, as the source does, or
   * the number of choices collected before it, which the usage text's
   * example shows.
   */
  datatype StdinMark = ArgPosition | ChoicePosition

  predicate HasPrefix(s: string, p: string) {
    |p| <= |s| && s[..|p|] == p
  }

  /** An argument that no arm of the parser's `match` claims: it becomes a choice. */
  predicate IsPlain(arg: string) {
    arg !in {"--help", "-h", "--vanish", "-v", "--prompt", "-p", "--selection", "-s",
             "--index", "-n", "-", "--"}
    && !HasPrefix(arg, "-p=") && !HasPrefix(arg, "--prompt=")
    && !HasPrefix(arg, "-s=") && !HasPrefix(arg, "--selection=")
    && !HasPrefix(arg, "-n=") && !HasPrefix(arg, "--index=")
  }

  /** The text after the `=` of a `short=value` or `long=value` argument. */
  function FlagValue(arg: string, short: string, long: string): string
    requires HasPrefix(arg, short) || HasPrefix(arg, long)
  {
    if HasPrefix(arg, short) then arg[|short|..] else arg[|long|..]
  }

  /** An argument that sets the prompt, in any of its four spellings. */
  predicate IsPromptForm(arg: string) {
    arg in {"-p", "--prompt"} || HasPrefix(arg, "-p=") || HasPrefix(arg, "--prompt=")
  }

  /** How the parse goes on after one argument. */
  datatype Progress =
    | Continue(acc: Args, next: nat)   // read on from argument `next`
    | Stop(acc: Args)                  // the arguments are used up

  /**
   * One pass of the loop of `Args::parse` (src/main.rs:87-133), on the
   * argument at position `i`, in the order of the `match` arms.
   */
  function Consume(args: seq<string>, i: nat, acc: Args, mark: StdinMark): (r: Result<Progress, ParseIntError>)
    requires i < |args|
    ensures r.Ok? && r.value.Continue? ==> i < r.value.next <= |args|
    ensures r.Ok? && r.value.Continue? ==>
              r.value.acc.choices == acc.choices || (IsPlain(args[i]) && r.value.acc.choices == acc.choices + [args[i]])
    ensures r.Ok? && r.value.Stop? ==>
              r.value.acc.choices == acc.choices || (args[i] == "--" && r.value.acc.choices == acc.choices + args[i + 1..])
    ensures r.Ok? ==>
              r.value.acc.stdinIndex == acc.stdinIndex
              || (args[i] == "-" && r.value.acc.stdinIndex == Some(if mark == ArgPosition then i else |acc.choices|))
    ensures r.Err? ==> args[i] in {"--index", "-n"} || HasPrefix(args[i], "-n=") || HasPrefix(args[i], "--index=")
  {
    var arg := args[i];
    var hasNext := i + 1 < |args|;
    if arg == "--help" || arg == "-h" then Ok(Continue(acc.(help := true), i + 1))
    else if arg == "--vanish" || arg == "-v" then Ok(Continue(acc.(vanish := true), i + 1))
    else if arg == "--prompt" || arg == "-p" then
      if hasNext then Ok(Continue(acc.(prompt := Some(args[i + 1])), i + 2)) else Ok(Stop(acc))
    else if arg == "--selection" || arg == "-s" then
      if hasNext then Ok(Continue(acc.(selection := Some(args[i + 1])), i + 2)) else Ok(Stop(acc))
    else if arg == "--index" || arg == "-n" then
      if !hasNext then Ok(Stop(acc))
      else
        match ParseUsize(args[i + 1])
        case Err(e) => Err(e)
        case Ok(v) => Ok(Continue(acc.(selectedIndex := Some(v)), i + 2))
    else if arg == "-" then
      Ok(Continue(acc.(stdinIndex := Some(if mark == ArgPosition then i else |acc.choices|)), i + 1))
    else if HasPrefix(arg, "-p=") then Ok(Continue(acc.(prompt := Some(arg[3..])), i + 1))
    else if HasPrefix(arg, "--prompt=") then Ok(Continue(acc.(prompt := Some(arg[9..])), i + 1))
    else if HasPrefix(arg, "-s=") then Ok(Continue(acc.(selection := Some(arg[3..])), i + 1))
    else if HasPrefix(arg, "--selection=") then Ok(Continue(acc.(selection := Some(arg[12..])), i + 1))
    else if HasPrefix(arg, "-n=") then
      match ParseUsize(arg[3..])
      case Err(e) => Err(e)
      case Ok(v) => Ok(Continue(acc.(selectedIndex := Some(v)), i + 1))
    else if HasPrefix(arg, "--index=") then
      match ParseUsize(arg[8..])
      case Err(e) => Err(e)
      case Ok(v) => Ok(Continue(acc.(selectedIndex := Some(v)), i + 1))
    else if arg == "--" then Ok(Stop(acc.(choices := acc.choices + args[i + 1..])))
    else Ok(Continue(acc.(choices := acc.choices + [arg]), i + 1))
  }

  /** The arguments from position `i` on, read into `acc`. */
  function Scan(args: seq<string>, i: nat, acc: Args, mark: StdinMark): Result<Args, ParseIntError>
    requires i <= |args|
    decreases |args| - i
  {
    if i == |args| then Ok(acc)
    else
      match Consume(args, i, acc, mark)
      case Err(e) => Err(e)
      case Ok(Stop(a)) => Ok(a)
      case Ok(Continue(a, j)) => Scan(args, j, a, mark)
  }

  /**
   * `Args::parse` (src/main.rs:76-142): the scan, after which an empty
   * list of choices means the choices come from standard input.
   */
  function Parsed(args: seq<string>, mark: StdinMark): (r: Result<Args, ParseIntError>)
    ensures r.Ok? && r.value.choices == [] ==> r.value.stdinIndex == Some(0)
    ensures r.Ok? <==> Scan(args, 0, Init, mark).Ok?
  {
    match Scan(args, 0, Init, mark)
    case Err(e) => Err(e)
    case Ok(a) => Ok(if a.choices == [] then a.(stdinIndex := Some(0)) else a)
  }

  /**
   * One pass of the loop of `Args::parse` (src/main.rs:88-133): the `match`
   * on the argument at position `i`, taking the flag's value when it has one.
   */
  method ParseArg(args: seq<string>, i: nat, acc: Args, mark: StdinMark) returns (r: Result<Progress, ParseIntError>)
    requires i < |args|
    ensures r == Consume(args, i, acc, mark)
  {
    var arg := args[i];
    var result := acc;
    if arg == "--help" || arg == "-h" {
      result := result.(help := true);
    } else if arg == "--vanish" || arg == "-v" {
      result := result.(vanish := true);
    } else if arg == "--prompt" || arg == "-p" {
      if i + 1 == |args| {
        return Ok(Stop(result));
      }
      result := result.(prompt := Some(args[i + 1]));
      return Ok(Continue(result, i + 2));
    } else if arg == "--selection" || arg == "-s" {
      if i + 1 == |args| {
        return Ok(Stop(result));
      }
      result := result.(selection := Some(args[i + 1]));
      return Ok(Continue(result, i + 2));
    } else if arg == "--index" || arg == "-n" {
      if i + 1 == |args| {
        return Ok(Stop(result));
      }
      var v := ParseUsize(args[i + 1]);
      if v.Err? {
        return Err(v.error);
      }
      result := result.(selectedIndex := Some(v.value));
      return Ok(Continue(result, i + 2));
    } else if arg == "-" {
      result := result.(stdinIndex := Some(if mark == ArgPosition then i else |result.choices|));
    } else if HasPrefix(arg, "-p=") {
      result := result.(prompt := Some(arg[3..]));
    } else if HasPrefix(arg, "--prompt=") {
      result := result.(prompt := Some(arg[9..]));
    } else if HasPrefix(arg, "-s=") {
      result := result.(selection := Some(arg[3..]));
    } else if HasPrefix(arg, "--selection=") {
      result := result.(selection := Some(arg[12..]));
    } else if HasPrefix(arg, "-n=") {
      var v := ParseUsize(arg[3..]);
      if v.Err? {
        return Err(v.error);
      }
      result := result.(selectedIndex := Some(v.value));
    } else if HasPrefix(arg, "--index=") {
      var v := ParseUsize(arg[8..]);
      if v.Err? {
        return Err(v.error);
      }
      result := result.(selectedIndex := Some(v.value));
    } else if arg == "--" {
      // everything after `--` is a literal choice
      return Ok(Stop(result.(choices := result.choices + args[i + 1..])));
    } else {
      result := result.(choices := result.choices + [arg]);
    }
    return Ok(Continue(result, i + 1));
  }

  /** `Args::parse` (src/main.rs:76-142), with `-` recording the place `mark` says. */
  method Parse(args: seq<string>, mark: StdinMark) returns (r: Result<Args, ParseIntError>)
    ensures r == Parsed(args, mark)
  {
    var result := Init;
    var i := 0;
    while i < |args|
      invariant i <= |args|
      invariant Scan(args, i, result, mark) == Scan(args, 0, Init, mark)
      decreases |args| - i
    {
      var step := ParseArg(args, i, result, mark);
      match step {
        case Err(e) =>
          return Err(e);
        case Ok(Stop(a)) =>
          result, i := a, |args|;
        case Ok(Continue(a, j)) =>
          result, i := a, j;
      }
    }
    if result.choices == [] {
      result := result.(stdinIndex := Some(0));
    }
    r := Ok(result);
  }

  /** An argument not starting with `-` is a choice. */
  lemma NoDashIsPlain(arg: string)
    requires arg == [] || arg[0] != '-'
    ensures IsPlain(arg)
  {
  }

  lemma ScanContinue(args: seq<string>, i: nat, acc: Args, mark: StdinMark, a: Args, j: nat)
    requires i < |args| && Consume(args, i, acc, mark) == Ok(Continue(a, j))
    ensures Scan(args, i, acc, mark) == Scan(args, j, a, mark)
  {
  }

  lemma ConsumePlain(args: seq<string>, i: nat, acc: Args, mark: StdinMark)
    requires i < |args| && IsPlain(args[i])
    ensures Consume(args, i, acc, mark) == Ok(Continue(acc.(choices := acc.choices + [args[i]]), i + 1))
  {
  }

  /** A plain argument is pushed as a choice and the scan reads on. */
  lemma ScanPlainStep(args: seq<string>, i: nat, acc: Args, mark: StdinMark)
    requires i < |args| && IsPlain(args[i])
    ensures Scan(args, i, acc, mark) == Scan(args, i + 1, acc.(choices := acc.choices + [args[i]]), mark)
  {
    ConsumePlain(args, i, acc, mark);
    ScanContinue(args, i, acc, mark, acc.(choices := acc.choices + [args[i]]), i + 1);
  }

  /** A `--` ends the scan with the arguments after it pushed as choices. */
  lemma ScanDoubleDashStep(args: seq<string>, i: nat, acc: Args, mark: StdinMark)
    requires i < |args| && args[i] == "--"
    ensures Scan(args, i, acc, mark) == Ok(acc.(choices := acc.choices + args[i + 1..]))
  {
    ConsumeDoubleDash(args, i, acc, mark);
  }

  lemma ConsumeDash(args: seq<string>, i: nat, acc: Args, mark: StdinMark)
    requires i < |args| && args[i] == "-"
    ensures Consume(args, i, acc, mark)
         == Ok(Continue(acc.(stdinIndex := Some(if mark == ArgPosition then i else |acc.choices|)), i + 1))
  {
  }

  lemma ConsumeDoubleDash(args: seq<string>, i: nat, acc: Args, mark: StdinMark)
    requires i < |args| && args[i] == "--"
    ensures Consume(args, i, acc, mark) == Ok(Stop(acc.(choices := acc.choices + args[i + 1..])))
  {
  }

  /** `-h`/`--help` sets the help flag and nothing else (src/main.rs:89). */
  lemma ConsumeHelp(args: seq<string>, i: nat, acc: Args, mark: StdinMark)
    requires i < |args| && args[i] in {"-h", "--help"}
    ensures Consume(args, i, acc, mark) == Ok(Continue(acc.(help := true), i + 1))
  {
  }

  /** A value flag with no argument after it ends the parse and leaves its field as it was. */
  lemma ConsumeValueFlagAtEnd(args: seq<string>, acc: Args, mark: StdinMark)
    requires args != [] && args[|args| - 1] in {"-p", "--prompt", "-s", "--selection", "-n", "--index"}
    ensures Consume(args, |args| - 1, acc, mark) == Ok(Stop(acc))
  {
  }

  /**
   * `-p=text`/`--prompt=text` takes the text after the `=` as the prompt
   * (src/main.rs:107-114).
   */
  lemma ConsumePromptPrefix(args: seq<string>, i: nat, acc: Args, mark: StdinMark)
    requires i < |args| && (HasPrefix(args[i], "-p=") || HasPrefix(args[i], "--prompt="))
    ensures Consume(args, i, acc, mark)
         == Ok(Continue(acc.(prompt := Some(FlagValue(args[i], "-p=", "--prompt="))), i + 1))
  {
    var arg := args[i];
    if HasPrefix(arg, "-p=") {
      assert arg[1] == 'p' && arg[2] == '=';
    } else {
      assert arg[1] == '-' && arg[2] == 'p' && arg[8] == '=';
    }
  }

  /**
   * `-s=text`/`--selection=text` takes the text after the `=` as the
   * selection (src/main.rs:115-122).
   */
  lemma ConsumeSelectionPrefix(args: seq<string>, i: nat, acc: Args, mark: StdinMark)
    requires i < |args| && (HasPrefix(args[i], "-s=") || HasPrefix(args[i], "--selection="))
    ensures Consume(args, i, acc, mark)
         == Ok(Continue(acc.(selection := Some(FlagValue(args[i], "-s=", "--selection="))), i + 1))
  {
    var arg := args[i];
    if HasPrefix(arg, "-s=") {
      assert arg[1] == 's';
      assert !HasPrefix(arg, "-p=") && !HasPrefix(arg, "--prompt=");
    } else {
      assert arg[1] == '-' && arg[2] == 's' && |arg| >= 12;
      assert !HasPrefix(arg, "-p=") && !HasPrefix(arg, "--prompt=") && !HasPrefix(arg, "-s=");
    }
  }

  /**
   * `-n=digits`/`--index=digits` takes the number after the `=` as the
   * index, and fails with the error of the number parser on anything else
   * (src/main.rs:123-130).
   */
  lemma ConsumeIndexPrefix(args: seq<string>, i: nat, acc: Args, mark: StdinMark)
    requires i < |args| && (HasPrefix(args[i], "-n=") || HasPrefix(args[i], "--index="))
    ensures Consume(args, i, acc, mark)
         == match ParseUsize(FlagValue(args[i], "-n=", "--index="))
            case Ok(v) => Ok(Continue(acc.(selectedIndex := Some(v)), i + 1))
            case Err(e) => Err(e)
  {
    var arg := args[i];
    if HasPrefix(arg, "-n=") {
      assert arg[1] == 'n';
      assert !HasPrefix(arg, "-p=") && !HasPrefix(arg, "--prompt=");
      assert !HasPrefix(arg, "-s=") && !HasPrefix(arg, "--selection=");
    } else {
      assert arg[1] == '-' && arg[2] == 'i' && arg[7] == '=';
      assert !HasPrefix(arg, "-p=") && !HasPrefix(arg, "--prompt=");
      assert !HasPrefix(arg, "-s=") && !HasPrefix(arg, "--selection=") && !HasPrefix(arg, "-n=");
    }
  }

  /** `-v`/`--vanish` sets the vanish flag and nothing else (src/main.rs:90). */
  lemma ConsumeVanish(args: seq<string>, i: nat, acc: Args, mark: StdinMark)
    requires i < |args| && args[i] in {"-v", "--vanish"}
    ensures Consume(args, i, acc, mark) == Ok(Continue(acc.(vanish := true), i + 1))
  {
  }

  /** `-p`/`--prompt` takes the next argument as the prompt (src/main.rs:91-95). */
  lemma ConsumePrompt(args: seq<string>, i: nat, acc: Args, mark: StdinMark)
    requires i + 1 < |args| && args[i] in {"-p", "--prompt"}
    ensures Consume(args, i, acc, mark) == Ok(Continue(acc.(prompt := Some(args[i + 1])), i + 2))
  {
  }

  /** `-s`/`--selection` takes the next argument as the selection (src/main.rs:96-100). */
  lemma ConsumeSelection(args: seq<string>, i: nat, acc: Args, mark: StdinMark)
    requires i + 1 < |args| && args[i] in {"-s", "--selection"}
    ensures Consume(args, i, acc, mark) == Ok(Continue(acc.(selection := Some(args[i + 1])), i + 2))
  {
  }

  /**
   * `-n`/`--index` takes the next argument's decimal value as the index,
   * and fails with the error of the number parser on anything else
   * (src/main.rs:101-105).
   */
  lemma ConsumeIndex(args: seq<string>, i: nat, acc: Args, mark: StdinMark)
    requires i + 1 < |args| && args[i] in {"-n", "--index"}
    ensures Consume(args, i, acc, mark)
         == match ParseUsize(args[i + 1])
            case Ok(v) => Ok(Continue(acc.(selectedIndex := Some(v)), i + 2))
            case Err(e) => Err(e)
  {
  }

  /** The arguments of the unit test `test_arg_parse` (src/main.rs:170). */
  predicate IsUnitTestArgs(args: seq<string>) {
    args == ["-s=master", "a", "-", "--vanish", "b", "-p", "Which one?", "-n", "12", "--",
             "-p", "-h", "-", "--", "master", "z"]
  }

  /** The source's unit test `test_arg_parse` (src/main.rs:168-180). */
  // Concrete inputs are parameters pinned by `requires`, so the definitions are not unfolded over literals without bound.
  lemma ParseUnitTest(args: seq<string>)
    requires IsUnitTestArgs(args)
    ensures Parsed(args, ArgPosition)
         == Ok(Args(false, true, Some("Which one?"), Some("master"), Some(12), Some(2),
                    ["a", "b", "-p", "-h", "-", "--", "master", "z"]))
  {
    var a3 := Args(false, false, None, Some("master"), None, Some(2), ["a"]);
    var a5 := Args(false, true, None, Some("master"), None, Some(2), ["a", "b"]);
    var a9 := Args(false, true, Some("Which one?"), Some("master"), Some(12), Some(2), ["a", "b"]);
    UnitTestOpening(args, Init, a3);
    UnitTestVanishThenB(args, a3, a5);
    UnitTestPromptThenIndex(args, a5, a9);
    UnitTestLiterals(args, a9);
  }

  /** `-s=master a -` */
  // Concrete inputs are parameters pinned by `requires`, so the definitions are not unfolded over literals without bound.
  lemma UnitTestOpening(args: seq<string>, a0: Args, a3: Args)
    requires IsUnitTestArgs(args) && a0 == Init
    requires a3 == a0.(selection := Some("master"), stdinIndex := Some(2), choices := ["a"])
    ensures Scan(args, 0, a0, ArgPosition) == Scan(args, 3, a3, ArgPosition)
  {
    var m := ArgPosition;
    var a1 := a0.(selection := Some("master"));
    var a2 := a1.(choices := ["a"]);
    assert Scan(args, 0, a0, m) == Scan(args, 1, a1, m) by {
      assert args[0][..3] == "-s=" && args[0][3..] == "master";
      ConsumeSelectionPrefix(args, 0, a0, m);
      ScanContinue(args, 0, a0, m, a1, 1);
    }
    assert Scan(args, 1, a1, m) == Scan(args, 2, a2, m) by {
      NoDashIsPlain(args[1]);
      ConsumePlain(args, 1, a1, m);
      assert a1.choices + [args[1]] == ["a"];
      ScanContinue(args, 1, a1, m, a2, 2);
    }
    assert Scan(args, 2, a2, m) == Scan(args, 3, a3, m) by {
      ConsumeDash(args, 2, a2, m);
      ScanContinue(args, 2, a2, m, a3, 3);
    }
  }

  /** `--vanish b` */
  // Concrete inputs are parameters pinned by `requires`, so the definitions are not unfolded over literals without bound.
  lemma UnitTestVanishThenB(args: seq<string>, a3: Args, a5: Args)
    requires IsUnitTestArgs(args)
    requires a3 == Args(false, false, None, Some("master"), None, Some(2), ["a"])
    requires a5 == a3.(vanish := true, choices := ["a", "b"])
    ensures Scan(args, 3, a3, ArgPosition) == Scan(args, 5, a5, ArgPosition)
  {
    var m := ArgPosition;
    var a4 := a3.(vanish := true);
    assert Scan(args, 3, a3, m) == Scan(args, 4, a4, m) by {
      ConsumeVanish(args, 3, a3, m);
      ScanContinue(args, 3, a3, m, a4, 4);
    }
    assert Scan(args, 4, a4, m) == Scan(args, 5, a5, m) by {
      NoDashIsPlain(args[4]);
      ConsumePlain(args, 4, a4, m);
      assert a4.choices + [args[4]] == ["a", "b"];
      ScanContinue(args, 4, a4, m, a5, 5);
    }
  }

  /** `-p "Which one?" -n 12` */
  // Concrete inputs are parameters pinned by `requires`, so the definitions are not unfolded over literals without bound.
  lemma UnitTestPromptThenIndex(args: seq<string>, a5: Args, a9: Args)
    requires IsUnitTestArgs(args)
    requires a5 == Args(false, true, None, Some("master"), None, Some(2), ["a", "b"])
    requires a9 == a5.(prompt := Some("Which one?"), selectedIndex := Some(12))
    ensures Scan(args, 5, a5, ArgPosition) == Scan(args, 9, a9, ArgPosition)
  {
    var m := ArgPosition;
    var a7 := a5.(prompt := Some("Which one?"));
    assert Scan(args, 5, a5, m) == Scan(args, 7, a7, m) by {
      ConsumePrompt(args, 5, a5, m);
      ScanContinue(args, 5, a5, m, a7, 7);
    }
    assert Scan(args, 7, a7, m) == Scan(args, 9, a9, m) by {
      ParseTwelve();
      ConsumeIndex(args, 7, a7, m);
      ScanContinue(args, 7, a7, m, a9, 9);
    }
  }

  /** `-- -p -h - -- master z`: everything after the first `--` is a choice. */
  // Concrete inputs are parameters pinned by `requires`, so the definitions are not unfolded over literals without bound.
  lemma UnitTestLiterals(args: seq<string>, a9: Args)
    requires IsUnitTestArgs(args)
    requires a9 == Args(false, true, Some("Which one?"), Some("master"), Some(12), Some(2), ["a", "b"])
    ensures Scan(args, 9, a9, ArgPosition)
         == Ok(a9.(choices := ["a", "b", "-p", "-h", "-", "--", "master", "z"]))
  {
    ConsumeDoubleDash(args, 9, a9, ArgPosition);
    assert a9.choices + args[10..] == ["a", "b", "-p", "-h", "-", "--", "master", "z"];
  }

  lemma ParseTwelve()
    ensures ParseUsize("12") == Ok(12)
  {
    assert AllDigits("12");
    assert "12"[..1] == "1" && "1"[..0] == "";
    assert Value("12") == 12;
    DigitsOfValue("12");
  }

  /** The source's unit test `test_index_parse_error` (src/main.rs:182-186). */
  lemma IndexParseErrorUnitTest(mark: StdinMark)
    ensures Parsed(["--index", "abc"], mark) == Err(ParseIntError(InvalidDigit))
  {
    ParseLetters();
    assert Scan(["--index", "abc"], 0, Init, mark) == Err(ParseIntError(InvalidDigit));
  }

  /** Every choice the parser collects is one of the arguments. */
  lemma {:induction false} ScanChoicesFromArgs(args: seq<string>, i: nat, acc: Args, mark: StdinMark)
    requires i <= |args|
    requires forall c :: c in acc.choices ==> c in args
    ensures Scan(args, i, acc, mark).Ok? ==> forall c :: c in Scan(args, i, acc, mark).value.choices ==> c in args
    decreases |args| - i
  {
    if i < |args| {
      var r := Consume(args, i, acc, mark);
      if r.Ok? {
        assert forall c :: c in args[i + 1..] ==> c in args;
        if r.value.Continue? {
          ScanChoicesFromArgs(args, r.value.next, r.value.acc, mark);
        }
      }
    }
  }

  /** `Args::parse` never makes up a choice: each one is an argument it was given. */
  lemma ChoicesAreArguments(args: seq<string>, mark: StdinMark)
    ensures Parsed(args, mark).Ok? ==> forall c :: c in Parsed(args, mark).value.choices ==> c in args
  {
    ScanChoicesFromArgs(args, 0, Init, mark);
  }

  /** Plain arguments are pushed as choices, in order, and the scan reads on after them. */
  lemma {:induction false} ScanPlainPrefix(args: seq<string>, i: nat, k: nat, acc: Args, mark: StdinMark)
    requires i <= k <= |args|
    requires forall j :: i <= j < k ==> IsPlain(args[j])
    ensures Scan(args, i, acc, mark) == Scan(args, k, acc.(choices := acc.choices + args[i..k]), mark)
    decreases k - i
  {
    if i == k {
      assert acc.(choices := acc.choices + args[i..k]) == acc;
    } else {
      var next := acc.(choices := acc.choices + [args[i]]);
      ScanPlainStep(args, i, acc, mark);
      ScanPlainPrefix(args, i + 1, k, next, mark);
      assert next.choices + args[i + 1..k] == acc.choices + args[i..k] by {
        assert args[i..k] == [args[i]] + args[i + 1..k];
      }
    }
  }

  /** Arguments that no flag claims are taken, in order, as the choices. */
  lemma ScanPlain(args: seq<string>, i: nat, acc: Args, mark: StdinMark)
    requires i <= |args|
    requires forall j :: i <= j < |args| ==> IsPlain(args[j])
    ensures Scan(args, i, acc, mark) == Ok(acc.(choices := acc.choices + args[i..]))
  {
    ScanPlainPrefix(args, i, |args|, acc, mark);
    assert args[i..|args|] == args[i..];
  }

  /** Without flags, the arguments are the choices; with none at all, standard input is read. */
  lemma PlainArgumentsAreChoices(args: seq<string>, mark: StdinMark)
    requires forall j :: 0 <= j < |args| ==> IsPlain(args[j])
    ensures Parsed(args, mark) == Ok(Init.(choices := args, stdinIndex := if args == [] then Some(0) else None))
  {
    ScanPlain(args, 0, Init, mark);
    assert Init.choices + args[0..] == args;
  }

  /** Plain arguments up to a `--`, then everything after it as it stands. */
  lemma ScanUpToDoubleDash(args: seq<string>, i: nat, k: nat, acc: Args, mark: StdinMark)
    requires i <= k < |args| && args[k] == "--"
    requires forall j :: i <= j < k ==> IsPlain(args[j])
    ensures Scan(args, i, acc, mark) == Ok(acc.(choices := acc.choices + args[i..k] + args[k + 1..]))
  {
    ScanPlainPrefix(args, i, k, acc, mark);
    ScanDoubleDashStep(args, k, acc.(choices := acc.choices + args[i..k]), mark);
  }

  /** Arguments after `--` are literal choices, even when they look like flags. */
  lemma LiteralsAfterDoubleDash(pre: seq<string>, post: seq<string>, mark: StdinMark)
    requires forall j :: 0 <= j < |pre| ==> IsPlain(pre[j])
    ensures Parsed(pre + ["--"] + post, mark)
         == Ok(Init.(choices := pre + post, stdinIndex := if pre + post == [] then Some(0) else None))
  {
    var args := pre + ["--"] + post;
    ScanUpToDoubleDash(args, 0, |pre|, Init, mark);
    assert args[0..|pre|] == pre && args[|pre| + 1..] == post;
    assert Init.choices + args[0..|pre|] + args[|pre| + 1..] == pre + post;
  }

  /** As written, a recorded stdin index is the position of a `-` argument. */
  lemma {:induction false} ScanStdinAtDash(args: seq<string>, i: nat, acc: Args)
    requires i <= |args|
    requires acc.stdinIndex.Some? ==> acc.stdinIndex.value < |args| && args[acc.stdinIndex.value] == "-"
    ensures var r := Scan(args, i, acc, ArgPosition);
            r.Ok? && r.value.stdinIndex.Some? ==> r.value.stdinIndex.value < |args| && args[r.value.stdinIndex.value] == "-"
    decreases |args| - i
  {
    if i < |args| {
      var r := Consume(args, i, acc, ArgPosition);
      if r.Ok? && r.value.Continue? {
        ScanStdinAtDash(args, r.value.next, r.value.acc);
      }
    }
  }

  /**
   * As written, `stdin_index` is the position of a `-` among all the
   * arguments (src/main.rs:106), or 0 when there are no choices at all.
   */
  lemma StdinIndexIsArgPosition(args: seq<string>)
    ensures var r := Parsed(args, ArgPosition);
            r.Ok? && r.value.stdinIndex.Some? ==>
              (r.value.stdinIndex.value < |args| && args[r.value.stdinIndex.value] == "-")
              || (r.value.choices == [] && r.value.stdinIndex == Some(0))
  {
    ScanStdinAtDash(args, 0, Init);
  }

  /** Counting choices, the stdin index never passes the end of the list of choices. */
  lemma {:induction false} ScanStdinWithinChoices(args: seq<string>, i: nat, acc: Args)
    requires i <= |args|
    requires acc.stdinIndex.Some? ==> acc.stdinIndex.value <= |acc.choices|
    ensures var r := Scan(args, i, acc, ChoicePosition);
            r.Ok? && r.value.stdinIndex.Some? ==> r.value.stdinIndex.value <= |r.value.choices|
    decreases |args| - i
  {
    if i < |args| {
      var r := Consume(args, i, acc, ChoicePosition);
      if r.Ok? && r.value.Continue? {
        ScanStdinWithinChoices(args, r.value.next, r.value.acc);
      }
    }
  }

  /**
   * With `-` recording the number of choices before it, every parse
   * `IntoChooser` accepts: the lines of standard input are inserted
   * within the list.
   */
  lemma ChoicePositionFits(args: seq<string>)
    ensures var r := Parsed(args, ChoicePosition);
            r.Ok? && r.value.stdinIndex.Some? ==> r.value.stdinIndex.value <= |r.value.choices|
  {
    ScanStdinWithinChoices(args, 0, Init);
  }

  /**
   * As written, `-p x a -` records argument position 3 for `-` while
   * only one choice precedes it, so the splice at src/main.rs:152 would
   * start past the end of the list.
   */
  // Concrete inputs are parameters pinned by `requires`, so the definitions are not unfolded over literals without bound.
  lemma StdinPastChoices(args: seq<string>)
    requires args == ["-p", "x", "a", "-"]
    ensures Parsed(args, ArgPosition) == Ok(Init.(prompt := Some("x"), stdinIndex := Some(3), choices := ["a"]))
    ensures Parsed(args, ChoicePosition) == Ok(Init.(prompt := Some("x"), stdinIndex := Some(1), choices := ["a"]))
  {
    PromptThenPlainThenDash(args, Init, ArgPosition);
    PromptThenPlainThenDash(args, Init, ChoicePosition);
  }

  // Concrete inputs are parameters pinned by `requires`, so the definitions are not unfolded over literals without bound.
  lemma PromptThenPlainThenDash(args: seq<string>, a0: Args, mark: StdinMark)
    requires args == ["-p", "x", "a", "-"] && a0 == Init
    ensures Scan(args, 0, a0, mark)
         == Ok(a0.(prompt := Some("x"), choices := ["a"], stdinIndex := Some(if mark == ArgPosition then 3 else 1)))
  {
    var a2 := a0.(prompt := Some("x"));
    var a3 := a2.(choices := ["a"]);
    var a4 := a3.(stdinIndex := Some(if mark == ArgPosition then 3 else 1));
    assert Scan(args, 0, a0, mark) == Scan(args, 2, a2, mark) by {
      ConsumePrompt(args, 0, a0, mark);
      ScanContinue(args, 0, a0, mark, a2, 2);
    }
    assert Scan(args, 2, a2, mark) == Scan(args, 3, a3, mark) by {
      NoDashIsPlain(args[2]);
      ConsumePlain(args, 2, a2, mark);
      assert a2.choices + [args[2]] == ["a"];
      ScanContinue(args, 2, a2, mark, a3, 3);
    }
    assert Scan(args, 3, a3, mark) == Scan(args, 4, a4, mark) by {
      ConsumeDash(args, 3, a3, mark);
      ScanContinue(args, 3, a3, mark, a4, 4);
    }
  }

  /** An argument that does not set the prompt leaves it as it was. */
  lemma ConsumeKeepsPrompt(args: seq<string>, i: nat, acc: Args, mark: StdinMark)
    requires i < |args| && !IsPromptForm(args[i])
    ensures Consume(args, i, acc, mark).Ok? ==> Consume(args, i, acc, mark).value.acc.prompt == acc.prompt
  {
  }

  /**
   * Choices are only ever appended: those collected before position `i`
   * stay, in order, at the front of the result.
   */
  lemma {:induction false} ScanAppendsChoices(args: seq<string>, i: nat, acc: Args, mark: StdinMark)
    requires i <= |args|
    ensures Scan(args, i, acc, mark).Ok? ==> acc.choices <= Scan(args, i, acc, mark).value.choices
    decreases |args| - i
  {
    if i < |args| {
      var r := Consume(args, i, acc, mark);
      if r.Ok? && r.value.Continue? {
        ScanAppendsChoices(args, r.value.next, r.value.acc, mark);
      }
    }
  }

  /** A scan over arguments none of which sets the prompt leaves the prompt as it was. */
  lemma {:induction false} ScanKeepsPrompt(args: seq<string>, i: nat, acc: Args, mark: StdinMark)
    requires i <= |args|
    requires forall k :: i <= k < |args| ==> !IsPromptForm(args[k])
    ensures Scan(args, i, acc, mark).Ok? ==> Scan(args, i, acc, mark).value.prompt == acc.prompt
    decreases |args| - i
  {
    if i < |args| {
      var r := Consume(args, i, acc, mark);
      ConsumeKeepsPrompt(args, i, acc, mark);
      if r.Ok? && r.value.Continue? {
        ScanKeepsPrompt(args, r.value.next, r.value.acc, mark);
      }
    }
  }

  /**
   * The last argument that sets the prompt wins, whatever the earlier ones
   * set (src/main.rs:91-95, 107-114): `-p text`/`--prompt text` with a
   * following argument, or `-p=text`/`--prompt=text`.
   */
  lemma LaterPromptWins(args: seq<string>, i: nat, acc: Args, mark: StdinMark)
    requires i < |args| && IsPromptForm(args[i])
    requires args[i] in {"-p", "--prompt"} ==> i + 1 < |args|
    requires forall k :: i < k < |args| ==> !IsPromptForm(args[k])
    ensures var r := Scan(args, i, acc, mark);
            r.Ok? ==> r.value.prompt == Some(if args[i] in {"-p", "--prompt"} then args[i + 1]
                                             else FlagValue(args[i], "-p=", "--prompt="))
  {
    if args[i] in {"-p", "--prompt"} {
      var a := acc.(prompt := Some(args[i + 1]));
      ConsumePrompt(args, i, acc, mark);
      ScanContinue(args, i, acc, mark, a, i + 2);
      ScanKeepsPrompt(args, i + 2, a, mark);
    } else {
      var a := acc.(prompt := Some(FlagValue(args[i], "-p=", "--prompt=")));
      ConsumePromptPrefix(args, i, acc, mark);
      ScanContinue(args, i, acc, mark, a, i + 1);
      ScanKeepsPrompt(args, i + 1, a, mark);
    }
  }

  /** A scan over arguments with no `-` among them leaves the stdin index as it was. */
  lemma {:induction false} ScanKeepsStdinIndex(args: seq<string>, i: nat, acc: Args, mark: StdinMark)
    requires i <= |args|
    requires forall k :: i <= k < |args| ==> args[k] != "-"
    ensures Scan(args, i, acc, mark).Ok? ==> Scan(args, i, acc, mark).value.stdinIndex == acc.stdinIndex
    decreases |args| - i
  {
    if i < |args| {
      var r := Consume(args, i, acc, mark);
      if r.Ok? && r.value.Continue? {
        ScanKeepsStdinIndex(args, r.value.next, r.value.acc, mark);
      }
    }
  }

  /** The last `-` decides where the lines of standard input go (src/main.rs:106). */
  lemma LaterDashWins(args: seq<string>, i: nat, acc: Args, mark: StdinMark)
    requires i < |args| && args[i] == "-"
    requires forall k :: i < k < |args| ==> args[k] != "-"
    ensures var r := Scan(args, i, acc, mark);
            r.Ok? ==> r.value.stdinIndex == Some(if mark == ArgPosition then i else |acc.choices|)
  {
    var a := acc.(stdinIndex := Some(if mark == ArgPosition then i else |acc.choices|));
    ConsumeDash(args, i, acc, mark);
    ScanContinue(args, i, acc, mark, a, i + 1);
    ScanKeepsStdinIndex(args, i + 1, a, mark);
  }

  /**
   * An index flag whose value the number parser rejects ends the scan with
   * that error, whatever was read before (src/main.rs:103, 125, 129).
   */
  lemma IndexErrorStopsScan(args: seq<string>, i: nat, acc: Args, mark: StdinMark)
    requires i < |args|
    ensures args[i] in {"-n", "--index"} && i + 1 < |args| && ParseUsize(args[i + 1]).Err? ==>
              Scan(args, i, acc, mark) == Err(ParseUsize(args[i + 1]).error)
    ensures (HasPrefix(args[i], "-n=") || HasPrefix(args[i], "--index="))
            && ParseUsize(FlagValue(args[i], "-n=", "--index=")).Err? ==>
              Scan(args, i, acc, mark) == Err(ParseUsize(FlagValue(args[i], "-n=", "--index=")).error)
  {
    if args[i] in {"-n", "--index"} && i + 1 < |args| {
      ConsumeIndex(args, i, acc, mark);
    }
    if HasPrefix(args[i], "-n=") || HasPrefix(args[i], "--index=") {
      ConsumeIndexPrefix(args, i, acc, mark);
    }
  }

  /**
   * After plain arguments, an index flag with a value the number parser
   * rejects makes the whole parse fail with that error, whatever follows.
   */
  lemma BadIndexFailsParse(pre: seq<string>, flag: string, v: string, post: seq<string>, mark: StdinMark)
    requires forall j :: 0 <= j < |pre| ==> IsPlain(pre[j])
    requires flag in {"-n", "--index"} && ParseUsize(v).Err?
    ensures Parsed(pre + [flag, v] + post, mark) == Err(ParseUsize(v).error)
  {
    var args := pre + [flag, v] + post;
    assert args[|pre|] == flag && args[|pre| + 1] == v;
    ScanPlainPrefix(args, 0, |pre|, Init, mark);
    IndexErrorStopsScan(args, |pre|, Init.(choices := Init.choices + args[0..|pre|]), mark);
  }

  /** `vec.splice(k..k, lines)`: `lines` inserted before position `k` of `cs`. */
  function Splice(cs: seq<string>, k: nat, lines: seq<string>): (r: seq<string>)
    requires k <= |cs|
    ensures |r| == |cs| + |lines|
    ensures r[..k] == cs[..k] && r[k..k + |lines|] == lines && r[k + |lines|..] == cs[k..]
  {
    cs[..k] + lines + cs[k..]
  }

  /** The choices of the chooser built from `a`, given the lines of standard input. */
  function Gathered(a: Args, stdinLines: seq<string>): (r: seq<string>)
    requires a.stdinIndex.Some? ==> a.stdinIndex.value <= |a.choices|
    ensures |r| == |a.choices| + (if a.stdinIndex.Some? then |stdinLines| else 0)
    ensures forall c :: c in r <==> c in a.choices || (a.stdinIndex.Some? && c in stdinLines)
    ensures a.stdinIndex.None? ==> r == a.choices
  {
    if a.stdinIndex.Some? then
      var k := a.stdinIndex.value;
      assert forall c :: c in a.choices <==> c in a.choices[..k] || c in a.choices[k..] by {
        assert a.choices == a.choices[..k] + a.choices[k..];
      }
      Splice(a.choices, k, stdinLines)
    else a.choices
  }

  /**
   * The index clamp of src/main.rs:155 as written: `min(index, len)`,
   * which is `len` itself, one past the last choice, for any index at or
   * past the end.
   */
  function ClampAsWritten(index: nat, len: nat): (r: nat)
    ensures r <= len
    ensures r < len <==> index < len
    ensures index < len ==> r == index
  {
    if index < len then index else len
  }

  /**
   * `-n 5 a` selects index 5 of a one-choice list; the clamp as written
   * leaves the highlight on position 1, which names no choice, so
   * confirming it would remove past the end of the list (src/lib.rs:81).
   */
  // Concrete inputs are parameters pinned by `requires`, so the definitions are not unfolded over literals without bound.
  lemma IndexPastEnd(args: seq<string>, mark: StdinMark)
    requires args == ["-n", "5", "a"]
    ensures Parsed(args, mark) == Ok(Init.(selectedIndex := Some(5), choices := ["a"]))
    ensures ClampAsWritten(5, |["a"]|) == |["a"]|
    ensures ClampIndex(5, |["a"]|) == 0
  {
    IndexThenPlain(args, Init, mark);
  }

  // Concrete inputs are parameters pinned by `requires`, so the definitions are not unfolded over literals without bound.
  lemma IndexThenPlain(args: seq<string>, a0: Args, mark: StdinMark)
    requires args == ["-n", "5", "a"] && a0 == Init
    ensures Scan(args, 0, a0, mark) == Ok(a0.(selectedIndex := Some(5), choices := ["a"]))
  {
    var a2 := a0.(selectedIndex := Some(5));
    assert Scan(args, 0, a0, mark) == Scan(args, 2, a2, mark) by {
      assert ToDecimal(5) == "5";
      ParseDecimal(5);
      ConsumeIndex(args, 0, a0, mark);
      ScanContinue(args, 0, a0, mark, a2, 2);
    }
    NoDashIsPlain(args[2]);
    ScanPlain(args, 2, a2, mark);
    assert a2.choices + args[2..] == ["a"];
  }

  /**
   * The corrected clamp: an index past the end selects the last choice, the
   * smallest change that keeps the highlight on a real choice, so that
   * removing the confirmed choice (src/lib.rs:81) stays within the list.
   */
  function ClampIndex(index: nat, len: nat): (r: nat)
    ensures len > 0 ==> r < len
    ensures index < len ==> r == index
    ensures 0 < len <= index ==> r == len - 1
  {
    if index < len then index else if len == 0 then 0 else len - 1
  }

  /**
   * How an `--index` past the end is brought back: to `min(index, len)`,
   * as src/main.rs:155 writes it, or to the last choice, the smallest
   * change that keeps the highlight on a real choice.
   */
  datatype IndexClamp = ToLength | ToLastChoice

  function Clamp(clamp: IndexClamp, index: nat, len: nat): nat {
    match clamp
    case ToLength => ClampAsWritten(index, len)
    case ToLastChoice => ClampIndex(index, len)
  }

  /**
   * The choice highlighted first (src/main.rs:154-159): the first choice
   * equal to the `--selection` text, else the clamped `--index`, else the
   * first choice. Only the clamp as written can land past the last choice.
   */
  function StartChoice(a: Args, cs: seq<string>, clamp: IndexClamp): (r: nat)
    ensures r <= |cs|
    ensures r == |cs| && |cs| > 0 ==> clamp == ToLength
    ensures a.selection.Some? && a.selection.value in cs ==> FirstMatch(cs, a.selection.value) == Some(r)
    ensures (a.selection.None? || a.selection.value !in cs) && a.selectedIndex.None? ==> r == 0
    ensures (a.selection.None? || a.selection.value !in cs) && a.selectedIndex.Some? ==>
              r == Clamp(clamp, a.selectedIndex.value, |cs|)
  {
    var fallback := if a.selectedIndex.Some? then Clamp(clamp, a.selectedIndex.value, |cs|) else 0;
    if a.selection.Some? && FirstMatch(cs, a.selection.value).Some? then FirstMatch(cs, a.selection.value).value
    else fallback
  }

  /**
   * `Args::into_chooser` (src/main.rs:143-161), given the lines standard
   * input yields: insert them where `-` was, clamp the index as `clamp`
   * says, then look up the selection.
   */
  method IntoChooser(a: Args, stdinLines: seq<string>, clamp: IndexClamp) returns (c: Chooser)
    requires a.stdinIndex.Some? ==> a.stdinIndex.value <= |a.choices|
    ensures fresh(c)
    ensures c.vanish == a.vanish && c.prompt == a.prompt.GetOr(DefaultPrompt)
    ensures c.choices == Gathered(a, stdinLines)
    ensures c.currentChoice == StartChoice(a, c.choices, clamp)
    ensures clamp == ToLastChoice && |c.choices| > 0 ==> c.currentChoice < |c.choices|
  {
    c := new Chooser(a.choices);
    c.vanish := a.vanish;
    c.prompt := a.prompt.GetOr(DefaultPrompt);
    if a.stdinIndex.Some? {
      c.choices := Splice(c.choices, a.stdinIndex.value, stdinLines);
    }
    if a.selectedIndex.Some? {
      c.currentChoice := Clamp(clamp, a.selectedIndex.value, |c.choices|);
    }
    if a.selection.Some? {
      var found := c.SetChoice(a.selection.value);
    }
  }

  /**
   * The example of the usage text (src/main.rs:37-49): with `seq 3` on
   * standard input, the lines go right after `a`, and `master` is
   * highlighted. Recording argument positions instead would put them
   * after `-p`.
   */
  // Concrete inputs are parameters pinned by `requires`, so the definitions are not unfolded over literals without bound.
  lemma UsageExample(args: seq<string>, lines: seq<string>, shown: seq<string>, cs: seq<string>, clamp: IndexClamp)
    requires args == ["-s", "master", "a", "-", "b", "-p", "Which one?", "--", "-p", "-h", "-", "--", "master", "z"]
    requires lines == ["1", "2", "3"]
    requires shown == ["a", "1", "2", "3", "b", "-p", "-h", "-", "--", "master", "z"]
    requires cs == ["a", "b", "-p", "-h", "-", "--", "master", "z"]
    ensures Parsed(args, ChoicePosition)
         == Ok(Init.(selection := Some("master"), prompt := Some("Which one?"), stdinIndex := Some(1), choices := cs))
    ensures Parsed(args, ArgPosition)
         == Ok(Init.(selection := Some("master"), prompt := Some("Which one?"), stdinIndex := Some(3), choices := cs))
    ensures Gathered(Parsed(args, ChoicePosition).value, lines) == shown
    ensures StartChoice(Parsed(args, ChoicePosition).value, shown, clamp) == 9
    ensures Gathered(Parsed(args, ArgPosition).value, lines) != shown
  {
    UsageScan(args, Init, ChoicePosition, cs);
    UsageScan(args, Init, ArgPosition, cs);
    UsageGathered(Parsed(args, ChoicePosition).value, Parsed(args, ArgPosition).value, lines, shown, cs, clamp);
  }

  // The records are parameters pinned by `requires` so that the literal
  // lists are not unfolded again inside `Gathered` and `StartChoice`.
  lemma UsageGathered(byChoice: Args, byArg: Args, lines: seq<string>, shown: seq<string>, cs: seq<string>,
                      clamp: IndexClamp)
    requires lines == ["1", "2", "3"]
    requires shown == ["a", "1", "2", "3", "b", "-p", "-h", "-", "--", "master", "z"]
    requires cs == ["a", "b", "-p", "-h", "-", "--", "master", "z"]
    requires byChoice == Init.(selection := Some("master"), prompt := Some("Which one?"), stdinIndex := Some(1), choices := cs)
    requires byArg == byChoice.(stdinIndex := Some(3))
    ensures Gathered(byChoice, lines) == shown
    ensures StartChoice(byChoice, shown, clamp) == 9
    ensures Gathered(byArg, lines) != shown
  {
    assert cs[..1] == ["a"] && cs[1..] == shown[4..];
    assert Splice(cs, 1, lines) == shown;
    assert forall j :: 0 <= j < |shown| && j != 9 ==> shown[j] != "master";
    assert shown[9] == "master";
    assert Splice(cs, 3, lines)[1] == "b" != shown[1];
  }

  // Concrete inputs are parameters pinned by `requires`, so the definitions are not unfolded over literals without bound.
  lemma UsageScan(args: seq<string>, a0: Args, mark: StdinMark, cs: seq<string>)
    requires args == ["-s", "master", "a", "-", "b", "-p", "Which one?", "--", "-p", "-h", "-", "--", "master", "z"]
    requires a0 == Init && cs == ["a", "b", "-p", "-h", "-", "--", "master", "z"]
    ensures Scan(args, 0, a0, mark)
         == Ok(a0.(selection := Some("master"), prompt := Some("Which one?"),
                   stdinIndex := Some(if mark == ArgPosition then 3 else 1), choices := cs))
  {
    var a4 := a0.(selection := Some("master"), choices := ["a"], stdinIndex := Some(if mark == ArgPosition then 3 else 1));
    UsageScanHead(args, a0, mark, a4);
    UsageScanTail(args, a4, mark, cs);
  }

  // Concrete inputs are parameters pinned by `requires`, so the definitions are not unfolded over literals without bound.
  lemma UsageScanHead(args: seq<string>, a0: Args, mark: StdinMark, a4: Args)
    requires args == ["-s", "master", "a", "-", "b", "-p", "Which one?", "--", "-p", "-h", "-", "--", "master", "z"]
    requires a0 == Init
    requires a4 == a0.(selection := Some("master"), choices := ["a"], stdinIndex := Some(if mark == ArgPosition then 3 else 1))
    ensures Scan(args, 0, a0, mark) == Scan(args, 4, a4, mark)
  {
    var a2 := a0.(selection := Some("master"));
    var a3 := a2.(choices := ["a"]);
    assert Scan(args, 0, a0, mark) == Scan(args, 2, a2, mark) by {
      ConsumeSelection(args, 0, a0, mark);
      ScanContinue(args, 0, a0, mark, a2, 2);
    }
    assert Scan(args, 2, a2, mark) == Scan(args, 3, a3, mark) by {
      NoDashIsPlain(args[2]);
      ConsumePlain(args, 2, a2, mark);
      assert a2.choices + [args[2]] == ["a"];
      ScanContinue(args, 2, a2, mark, a3, 3);
    }
    assert Scan(args, 3, a3, mark) == Scan(args, 4, a4, mark) by {
      ConsumeDash(args, 3, a3, mark);
      ScanContinue(args, 3, a3, mark, a4, 4);
    }
  }

  // Concrete inputs are parameters pinned by `requires`, so the definitions are not unfolded over literals without bound.
  lemma UsageScanTail(args: seq<string>, a4: Args, mark: StdinMark, cs: seq<string>)
    requires args == ["-s", "master", "a", "-", "b", "-p", "Which one?", "--", "-p", "-h", "-", "--", "master", "z"]
    requires a4.choices == ["a"] && cs == ["a", "b", "-p", "-h", "-", "--", "master", "z"]
    ensures Scan(args, 4, a4, mark) == Ok(a4.(prompt := Some("Which one?"), choices := cs))
  {
    var a5 := a4.(choices := ["a", "b"]);
    var a7 := a5.(prompt := Some("Which one?"));
    assert Scan(args, 4, a4, mark) == Scan(args, 5, a5, mark) by {
      NoDashIsPlain(args[4]);
      ConsumePlain(args, 4, a4, mark);
      assert a4.choices + [args[4]] == ["a", "b"];
      ScanContinue(args, 4, a4, mark, a5, 5);
    }
    assert Scan(args, 5, a5, mark) == Scan(args, 7, a7, mark) by {
      ConsumePrompt(args, 5, a5, mark);
      ScanContinue(args, 5, a5, mark, a7, 7);
    }
    assert Scan(args, 7, a7, mark) == Ok(a7.(choices := a7.choices + args[8..])) by {
      ConsumeDoubleDash(args, 7, a7, mark);
    }
    assert a7.choices + args[8..] == cs;
  }
}
