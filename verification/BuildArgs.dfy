/** The argument parser of the build script: options up to the first bare argument, the rest
    for the program that was built. */
module BuildArgs {
  import opened Wrappers

  /** How an argument reads: the short ninja flags, the fixed flags, `--key` or `--key=value`
      with the key in camel case, or none of these. */
  datatype Class = Ninja | Cutoff | ConfigureOnly | Quiet | Help | Flag(key: string, value: Option<string>) | Bare

  /** The regular expressions of the parser, and the two sets of config fields. */
  datatype Syntax = Syntax(classify: string -> Class, boolFields: set<string>, stringFields: set<string>,
                           parseBool: string -> Option<bool>)
  {
    predicate IsOurs(key: string) {
      key == "profile" || key == "target" || key == "configFile" || key in boolFields || key in stringFields
    }
  }

  datatype Setting = Text(text: string) | Switch(on: bool)

  datatype CliArgs = CliArgs(profile: string, overrides: map<string, Setting>, ninjaTargets: seq<string>,
                             ninjaArgs: seq<string>, execArgs: seq<string>, configureOnly: bool, quiet: bool,
                             configFile: Option<string>)

  datatype Error = ShowsHelp | RequiresValue(key: string) | InvalidBoolean(value: string) | UnknownField(key: string)

  const DEFAULTS := CliArgs("debug", map[], [], [], [], false, false, None)

  /** What an option with a value does. */
  function SetField(sx: Syntax, args: CliArgs, key: string, value: string): Result<CliArgs, Error> {
    if key == "target" then Success(args.(ninjaTargets := args.ninjaTargets + [value]))
    else if key == "configFile" then Success(args.(configFile := Some(value), configureOnly := true))
    else if key == "profile" then Success(args.(profile := value))
    else if key in sx.boolFields then
      match sx.parseBool(value)
      case None => Failure(InvalidBoolean(value))
      case Some(on) => Success(args.(overrides := args.overrides[key := Switch(on)]))
    else if key in sx.stringFields then Success(args.(overrides := args.overrides[key := Text(value)]))
    else Failure(UnknownField(key))
  }

  /** Parsing `argv` when `args` has been gathered so far. */
  function Parse(sx: Syntax, args: CliArgs, argv: seq<string>): Result<CliArgs, Error>
    decreases |argv|
  {
    if argv == [] then Success(args)
    else
      match sx.classify(argv[0])
      case Ninja => Parse(sx, args.(ninjaArgs := args.ninjaArgs + [argv[0]]), argv[1..])
      case Cutoff => Success(args.(execArgs := args.execArgs + argv[1..]))
      case ConfigureOnly => Parse(sx, args.(configureOnly := true), argv[1..])
      case Quiet => Parse(sx, args.(quiet := true), argv[1..])
      case Help => Failure(ShowsHelp)
      case Bare => Success(args.(execArgs := args.execArgs + argv))
      case Flag(key, Some(value)) =>
        var next :- SetField(sx, args, key, value);
        Parse(sx, next, argv[1..])
      case Flag(key, None) =>
        if !sx.IsOurs(key) then Success(args.(execArgs := args.execArgs + argv))
        else if |argv| < 2 then Failure(RequiresValue(key))
        else
          var next :- SetField(sx, args, key, argv[1]);
          Parse(sx, next, argv[2..])
  }

  method ParseArgs(sx: Syntax, argv: seq<string>) returns (r: Result<CliArgs, Error>)
    ensures r == Parse(sx, DEFAULTS, argv)
  {
    var args := DEFAULTS;
    var i, inExec := 0, false;
    while i < |argv|
      invariant 0 <= i <= |argv|
      invariant inExec ==> Success(args.(execArgs := args.execArgs + argv[i..])) == Parse(sx, DEFAULTS, argv)
      invariant !inExec ==> args.execArgs == [] && Parse(sx, args, argv[i..]) == Parse(sx, DEFAULTS, argv)
      decreases |argv| - i
    {
      var arg := argv[i];
      ghost var suffix := argv[i..];
      assert suffix[0] == arg && suffix[1..] == argv[i + 1..];
      assert i + 1 < |argv| ==> suffix[1] == argv[i + 1] && suffix[2..] == argv[i + 2..];
      if inExec {
        assert args.execArgs + argv[i..] == args.execArgs + [arg] + argv[i + 1..];
        args := args.(execArgs := args.execArgs + [arg]);
        i := i + 1;
        continue;
      }
      match sx.classify(arg) {
        case Ninja => args := args.(ninjaArgs := args.ninjaArgs + [arg]);
        case Cutoff => inExec := true;
        case ConfigureOnly => args := args.(configureOnly := true);
        case Quiet => args := args.(quiet := true);
        case Help => return Failure(ShowsHelp);
        case Bare =>
          assert [] + argv[i..] == [] + [arg] + argv[i + 1..];
          args := args.(execArgs := args.execArgs + [arg]);
          inExec := true;
        case Flag(key, given) =>
          var value := given;
          if value == None {
            if !sx.IsOurs(key) {
              assert [] + argv[i..] == [] + [arg] + argv[i + 1..];
              args := args.(execArgs := args.execArgs + [arg]);
              inExec := true;
              i := i + 1;
              continue;
            }
            i := i + 1;
            if i >= |argv| {
              return Failure(RequiresValue(key));
            }
            value := Some(argv[i]);
          }
          args :- SetField(sx, args, key, value.value);
      }
      i := i + 1;
    }
    assert argv[i..] == [] && args.execArgs + [] == args.execArgs;
    r := Success(args);
  }

  // ----- nothing is lost

  /** One option as written: one argument, or a flag and the value after it. */
  datatype Item = One(arg: string) | Two(flag: string, value: string) {
    function Words(): seq<string> {
      match this
      case One(a) => [a]
      case Two(f, v) => [f, v]
    }
  }

  function Words(items: seq<Item>): seq<string> {
    if items == [] then [] else items[0].Words() + Words(items[1..])
  }

  /** What an item does on its own; None if it is no complete option. */
  function Effect(sx: Syntax, args: CliArgs, item: Item): Option<Result<CliArgs, Error>> {
    match item
    case One(a) =>
      (match sx.classify(a)
       case Ninja => Some(Success(args.(ninjaArgs := args.ninjaArgs + [a])))
       case ConfigureOnly => Some(Success(args.(configureOnly := true)))
       case Quiet => Some(Success(args.(quiet := true)))
       case Flag(key, Some(value)) => Some(SetField(sx, args, key, value))
       case _ => None)
    case Two(f, value) =>
      (match sx.classify(f)
       case Flag(key, None) => if sx.IsOurs(key) then Some(SetField(sx, args, key, value)) else None
       case _ => None)
  }

  /** The items applied one after the other; None unless every one is an option that succeeds. */
  function Effects(sx: Syntax, args: CliArgs, items: seq<Item>): Option<CliArgs>
    decreases |items|
  {
    if items == [] then Some(args)
    else
      match Effect(sx, args, items[0])
      case Some(Success(next)) => Effects(sx, next, items[1..])
      case _ => None
  }

  /** The keys that are not config fields. */
  const RESERVED: set<string> := {"target", "configFile", "profile"}

  /** The keys that there are. */
  predicate Known(sx: Syntax, key: string) {
    key in RESERVED || key in sx.boolFields || key in sx.stringFields
  }

  /** A value that the key may have: any, but for a boolean field one that parses. */
  predicate Takes(sx: Syntax, key: string, value: string) {
    key in RESERVED || (if key in sx.boolFields then sx.parseBool(value).Some? else key in sx.stringFields)
  }

  /** The item is an option, complete and in order. */
  predicate ItemOk(sx: Syntax, item: Item) {
    match item
    case One(a) =>
      (match sx.classify(a)
       case Flag(key, Some(value)) => Takes(sx, key, value)
       case c => c.Ninja? || c.ConfigureOnly? || c.Quiet?)
    case Two(f, value) => (match sx.classify(f) case Flag(key, None) => Takes(sx, key, value) case _ => false)
  }

  /** The items are applied without an error exactly if each of them is in order. */
  lemma {:induction false} AppliedIff(sx: Syntax, args: CliArgs, items: seq<Item>)
    ensures Effects(sx, args, items).Some? <==> forall item :: item in items ==> ItemOk(sx, item)
    decreases |items|
  {
    if items != [] {
      hide Effect, ItemOk;
      ItemAppliedIff(sx, args, items[0]);
      assert forall item :: item in items <==> item == items[0] || item in items[1..];
      match Effect(sx, args, items[0])
      case Some(Success(next)) => AppliedIff(sx, next, items[1..]);
      case _ => assert items[0] in items;
    }
  }

  lemma {:induction false} ItemAppliedIff(sx: Syntax, args: CliArgs, item: Item)
    ensures Effect(sx, args, item).Some? && Effect(sx, args, item).value.Success? <==> ItemOk(sx, item)
  {
  }

  /** The rest of the command line begins here: at its end, at a `--`, or at an argument that
      is neither ours nor ninja's. */
  predicate EndsOptions(sx: Syntax, rest: seq<string>) {
    || rest == []
    || sx.classify(rest[0]).Cutoff? || sx.classify(rest[0]).Bare?
    || match sx.classify(rest[0]) case Flag(key, None) => !Known(sx, key) case _ => false
  }

  /** Why parsing ends with an error here: at a call for help, at a key of ours without a value,
      or at a value that its key does not take. */
  function Refused(sx: Syntax, rest: seq<string>): Option<Error> {
    if rest == [] then None
    else
      match sx.classify(rest[0])
      case Help => Some(ShowsHelp)
      case Flag(key, Some(value)) => if Takes(sx, key, value) then None else Some(ValueError(sx, key, value))
      case Flag(key, None) =>
        if !Known(sx, key) then None
        else if |rest| < 2 then Some(RequiresValue(key))
        else if Takes(sx, key, rest[1]) then None
        else Some(ValueError(sx, key, rest[1]))
      case _ => None
  }

  function ValueError(sx: Syntax, key: string, value: string): Error {
    if key in sx.boolFields then InvalidBoolean(value) else UnknownField(key)
  }

  function ExecPart(sx: Syntax, rest: seq<string>): seq<string> {
    if rest != [] && sx.classify(rest[0]).Cutoff? then rest[1..] else rest
  }

  lemma {:induction false} ParseItem(sx: Syntax, args: CliArgs, item: Item, tail: seq<string>)
    requires Effect(sx, args, item).Some? && Effect(sx, args, item).value.Success?
    ensures Parse(sx, args, item.Words() + tail) == Parse(sx, Effect(sx, args, item).value.value, tail)
  {
    hide SetField;
    var argv := item.Words() + tail;
    assert argv[|item.Words()|..] == tail;
  }

  /** What parsing gives for options followed by a rest. */
  function Answer(sx: Syntax, after: CliArgs, rest: seq<string>): Result<CliArgs, Error> {
    match Refused(sx, rest)
    case Some(e) => Failure(e)
    case None => Success(after.(execArgs := after.execArgs + ExecPart(sx, rest)))
  }

  /** Options followed by a rest that ends them, or by an error, are parsed as just that. */
  lemma {:induction false} OptionsThenRest(sx: Syntax, args: CliArgs, items: seq<Item>, rest: seq<string>)
    requires Effects(sx, args, items).Some? && (EndsOptions(sx, rest) || Refused(sx, rest).Some?)
    ensures Parse(sx, args, Words(items) + rest) == Answer(sx, Effects(sx, args, items).value, rest)
    decreases |items|
  {
    hide Effect;
    if items == [] {
      assert Words(items) + rest == rest;
      assert args.execArgs + [] == args.execArgs;
    } else {
      hide SetField;
      assert Words(items) + rest == items[0].Words() + (Words(items[1..]) + rest);
      ParseItem(sx, args, items[0], Words(items[1..]) + rest);
      OptionsThenRest(sx, Effect(sx, args, items[0]).value.value, items[1..], rest);
    }
  }

  /** Every command line is options in order, each consumed once, and then either a suffix that
      goes to the program untouched, but for a `--` in front of it, or what is refused. */
  lemma {:induction false} EveryLineSplits(sx: Syntax, args: CliArgs, argv: seq<string>)
      returns (items: seq<Item>, rest: seq<string>)
    ensures argv == Words(items) + rest && Effects(sx, args, items).Some?
    ensures forall item :: item in items ==> ItemOk(sx, item)
    ensures EndsOptions(sx, rest) <==> Refused(sx, rest).None?
    ensures Parse(sx, args, argv) == Answer(sx, Effects(sx, args, items).value, rest)
    decreases |argv|
  {
    hide SetField, Effect, Parse;
    if EndsOptions(sx, argv) || Refused(sx, argv).Some? {
      items, rest := [], argv;
      OptionsThenRest(sx, args, [], argv);
      assert Words([]) + argv == argv;
    } else {
      var item := if sx.classify(argv[0]).Flag? && sx.classify(argv[0]).value.None? then Two(argv[0], argv[1]) else One(argv[0]);
      ItemAppliedIff(sx, args, item);
      var next := Effect(sx, args, item).value.value;
      var tail;
      tail, rest := EveryLineSplits(sx, next, argv[|item.Words()|..]);
      items := [item] + tail;
      assert items[1..] == tail;
      assert argv == item.Words() + argv[|item.Words()|..];
      assert Words(items) + rest == item.Words() + (Words(tail) + rest);
      ParseItem(sx, args, item, argv[|item.Words()|..]);
    }
  }

  // ----- what the options mean

  /** The value an item gives to `key`, if it does. */
  function ValueOf(sx: Syntax, item: Item, key: string): seq<string> {
    match item
    case One(a) => (match sx.classify(a) case Flag(k, Some(value)) => if k == key then [value] else [] case _ => [])
    case Two(f, value) => (match sx.classify(f) case Flag(k, _) => if k == key then [value] else [] case _ => [])
  }

  /** All the values given to `key`, in order. */
  function ValuesOf(sx: Syntax, items: seq<Item>, key: string): seq<string> {
    if items == [] then [] else ValueOf(sx, items[0], key) + ValuesOf(sx, items[1..], key)
  }

  function WordOf(sx: Syntax, item: Item, kind: Class): seq<string> {
    if item.One? && sx.classify(item.arg) == kind then [item.arg] else []
  }

  /** The arguments of one kind, in order. */
  function WordsOf(sx: Syntax, items: seq<Item>, kind: Class): seq<string> {
    if items == [] then [] else WordOf(sx, items[0], kind) + WordsOf(sx, items[1..], kind)
  }

  function LastOr(values: seq<string>, otherwise: string): string {
    if values == [] then otherwise else values[|values| - 1]
  }

  function LastSome(values: seq<string>, otherwise: Option<string>): Option<string> {
    if values == [] then otherwise else Some(values[|values| - 1])
  }

  lemma {:induction false} LastOfSum(a: seq<string>, b: seq<string>, x: string, y: Option<string>)
    ensures LastOr(a + b, x) == LastOr(b, LastOr(a, x))
    ensures LastSome(a + b, y) == LastSome(b, LastSome(a, y))
    ensures a == [] ==> LastOr(a, x) == x && LastSome(a, y) == y
  {
    if b == [] {
      assert a + b == a;
    }
  }

  function SettingAt(m: map<string, Setting>, key: string): Option<Setting> {
    if key in m then Some(m[key]) else None
  }

  /** What a value means for a key, if it may have it. */
  function SettingOf(sx: Syntax, key: string, value: string): Option<Setting> {
    if key in sx.boolFields then (match sx.parseBool(value) case Some(on) => Some(Switch(on)) case None => None)
    else if key in sx.stringFields then Some(Text(value))
    else None
  }

  /** What a key means for the config: of several values the last counts. */
  ghost predicate OverrideIs(sx: Syntax, before: CliArgs, after: CliArgs, key: string, values: seq<string>) {
    && (values != [] ==> SettingOf(sx, key, LastOr(values, "")).Some?)
    && SettingAt(after.overrides, key)
       == (if values == [] then SettingAt(before.overrides, key) else SettingOf(sx, key, LastOr(values, "")))
  }

  lemma {:induction false} ListsAddUp(sx: Syntax, args: CliArgs, items: seq<Item>)
    requires Effects(sx, args, items).Some?
    ensures var after := Effects(sx, args, items).value;
            && after.ninjaTargets == args.ninjaTargets + ValuesOf(sx, items, "target")
            && after.ninjaArgs == args.ninjaArgs + WordsOf(sx, items, Ninja)
            && after.execArgs == args.execArgs
    decreases |items|
  {
    hide Effect, ValueOf, WordOf;
    if items != [] {
      OneMeans(sx, args, items[0]);
      ListsAddUp(sx, Effect(sx, args, items[0]).value.value, items[1..]);
    }
  }

  lemma {:induction false} OneMeans(sx: Syntax, args: CliArgs, item: Item)
    requires Effect(sx, args, item).Some? && Effect(sx, args, item).value.Success?
    ensures var next := Effect(sx, args, item).value.value;
            && next.ninjaTargets == args.ninjaTargets + ValueOf(sx, item, "target")
            && next.ninjaArgs == args.ninjaArgs + WordOf(sx, item, Ninja)
            && next.execArgs == args.execArgs
            && next.profile == LastOr(ValueOf(sx, item, "profile"), args.profile)
            && next.configFile == LastSome(ValueOf(sx, item, "configFile"), args.configFile)
  {
    assert args.ninjaTargets + [] == args.ninjaTargets && args.ninjaArgs + [] == args.ninjaArgs;
    match item
    case One(a) =>
    case Two(f, _) =>
  }

  lemma {:induction false} LastCounts(sx: Syntax, args: CliArgs, items: seq<Item>)
    requires Effects(sx, args, items).Some?
    ensures var after := Effects(sx, args, items).value;
            && after.profile == LastOr(ValuesOf(sx, items, "profile"), args.profile)
            && after.configFile == LastSome(ValuesOf(sx, items, "configFile"), args.configFile)
    decreases |items|
  {
    hide Effect, ValueOf, LastOr, LastSome;
    if items == [] {
      LastOfSum([], [], args.profile, args.configFile);
    } else {
      OneMeans(sx, args, items[0]);
      LastCounts(sx, Effect(sx, args, items[0]).value.value, items[1..]);
      LastOfSum(ValueOf(sx, items[0], "profile"), ValuesOf(sx, items[1..], "profile"), args.profile, None);
      LastOfSum(ValueOf(sx, items[0], "configFile"), ValuesOf(sx, items[1..], "configFile"), "", args.configFile);
    }
  }

  lemma {:induction false} FlagsAre(sx: Syntax, args: CliArgs, items: seq<Item>)
    requires Effects(sx, args, items).Some?
    ensures var after := Effects(sx, args, items).value;
            && (after.configureOnly <==> args.configureOnly || ValuesOf(sx, items, "configFile") != []
                                         || WordsOf(sx, items, ConfigureOnly) != [])
            && (after.quiet <==> args.quiet || WordsOf(sx, items, Quiet) != [])
    decreases |items|
  {
    if items != [] {
      var item, next := items[0], Effect(sx, args, items[0]).value.value;
      assert next.configureOnly <==>
          args.configureOnly || ValueOf(sx, item, "configFile") != [] || WordOf(sx, item, ConfigureOnly) != [];
      assert next.quiet <==> args.quiet || WordOf(sx, item, Quiet) != [];
      hide Effect, ValueOf, WordOf;
      FlagsAre(sx, next, items[1..]);
    }
  }

  lemma {:induction false} LastOverrides(sx: Syntax, args: CliArgs, items: seq<Item>, key: string)
    requires Effects(sx, args, items).Some? && key !in RESERVED
    ensures OverrideIs(sx, args, Effects(sx, args, items).value, key, ValuesOf(sx, items, key))
    decreases |items|
  {
    hide Effect, ValueOf;
    if items != [] {
      OneOverrides(sx, args, items[0], key);
      LastOverrides(sx, Effect(sx, args, items[0]).value.value, items[1..], key);
    }
  }

  lemma {:induction false} OneOverrides(sx: Syntax, args: CliArgs, item: Item, key: string)
    requires Effect(sx, args, item).Some? && Effect(sx, args, item).value.Success? && key !in RESERVED
    ensures OverrideIs(sx, args, Effect(sx, args, item).value.value, key, ValueOf(sx, item, key))
  {
  }

  /** Options that succeed mean what their values say, one key at a time: targets and ninja
      flags add up in order; of every other key the last value counts, and a boolean field
      holds its parsed value. A config file implies configuring only. */
  lemma {:induction false} OptionsMean(sx: Syntax, args: CliArgs, items: seq<Item>, key: string)
    requires Effects(sx, args, items).Some?
    ensures var after := Effects(sx, args, items).value;
            && after.ninjaTargets == args.ninjaTargets + ValuesOf(sx, items, "target")
            && after.ninjaArgs == args.ninjaArgs + WordsOf(sx, items, Ninja)
            && after.execArgs == args.execArgs
            && after.profile == LastOr(ValuesOf(sx, items, "profile"), args.profile)
            && after.configFile == LastSome(ValuesOf(sx, items, "configFile"), args.configFile)
            && (after.configureOnly <==> args.configureOnly || ValuesOf(sx, items, "configFile") != []
                                         || WordsOf(sx, items, ConfigureOnly) != [])
            && (after.quiet <==> args.quiet || WordsOf(sx, items, Quiet) != [])
            && (key !in RESERVED ==> OverrideIs(sx, args, after, key, ValuesOf(sx, items, key)))
  {
    ListsAddUp(sx, args, items);
    LastCounts(sx, args, items);
    FlagsAre(sx, args, items);
    if key !in RESERVED {
      LastOverrides(sx, args, items, key);
    }
    hide Effects, ValuesOf, WordsOf, OverrideIs;
  }

  /** After the same options, `--key=value` and `--key value` are the same. */
  lemma {:induction false} SpaceForEquals(sx: Syntax, args: CliArgs, items: seq<Item>, joined: string, flag: string,
                                          key: string, value: string, rest: seq<string>)
    requires Effects(sx, args, items).Some? && Known(sx, key)
    requires sx.classify(joined) == Flag(key, Some(value)) && sx.classify(flag) == Flag(key, None)
    ensures Parse(sx, args, Words(items) + [joined] + rest) == Parse(sx, args, Words(items) + [flag, value] + rest)
    decreases |items|
  {
    hide SetField, Effect;
    var a, b := Words(items) + [joined] + rest, Words(items) + [flag, value] + rest;
    if items == [] {
      assert a == [joined] + rest && a[1..] == rest;
      assert b == [flag, value] + rest && b[2..] == rest;
    } else {
      var first, tail := items[0].Words(), Words(items[1..]);
      assert a == first + (tail + [joined] + rest) && b == first + (tail + [flag, value] + rest);
      ParseItem(sx, args, items[0], tail + [joined] + rest);
      ParseItem(sx, args, items[0], tail + [flag, value] + rest);
      SpaceForEquals(sx, Effect(sx, args, items[0]).value.value, items[1..], joined, flag, key, value, rest);
    }
  }
}
