/** cli_get_params (arrangephotos.php:17-80): the command-line option parser.
    The script's argument vector $_SERVER['argv'] is the parameter argv; the
    option values PHP stores are `true` for a bare flag or a string, and the
    defaults the caller passes are booleans or strings. */
module CliParams {
  import opened Strings

  datatype Value = Bool(b: bool) | Str(s: string)

  /** Option name to value. PHP arrays also keep insertion order; only the
      key-to-value association is modelled. */
  type Options = map<string, Value>

  /** What one argument does: store a value under an option name, or land in
      the list of unrecognised arguments. */
  datatype Effect = Store(key: string, value: Value) | Reject

  /** The arguments before the first "--" (arrangephotos.php:29-31). */
  function BeforeDoubleDash(argv: seq<string>): (r: seq<string>)
    ensures |r| <= |argv| && r == argv[..|r|]
    ensures "--" !in r
    ensures |r| < |argv| ==> argv[|r|] == "--"
  {
    if argv == [] || argv[0] == "--" then []
    else [argv[0]] + BeforeDoubleDash(argv[1..])
  }

  /** The arguments the parser looks at: before the first "--", without the
      script name argv[0] (arrangephotos.php:29-34). */
  function Tokens(argv: seq<string>): (r: seq<string>)
    ensures "--" !in r
    ensures argv == [] || argv[0] == "--" ==> r == []
    ensures argv != [] && argv[0] != "--" ==>
      && 1 + |r| <= |argv|
      && r == argv[1..1 + |r|]
      && (1 + |r| == |argv| || argv[1 + |r|] == "--")
  {
    var cut := BeforeDoubleDash(argv);
    if cut == [] then []
    else
      assert cut[1..] == argv[1..|cut|];
      cut[1..]
  }

  /** An option body split at its first '=' (arrangephotos.php:38-45): without
      '=' the whole body is the name and the value is true; otherwise the name is
      what precedes the first '=' and the value everything after it. */
  function SplitOption(body: string): (string, Value)
  {
    if '=' !in body then (body, Bool(true))
    else
      var i := IndexOf(body, '=');
      (body[..i], Str(body[i + 1..]))
  }

  /** The split as the script computes it: explode on '=', the first piece is the
      name, and the remaining pieces imploded again with '=' are the value. */
  lemma SplitOptionExplode(body: string)
    ensures var parts := Explode('=', body);
      SplitOption(body) == if |parts| == 1 then (parts[0], Bool(true))
                           else (parts[0], Str(Implode('=', parts[1..])))
  {
    if '=' in body {
      var i := IndexOf(body, '=');
      assert body == body[..i] + ['='] + body[i + 1..];
      ImplodeTail('=', body[..i], body[i + 1..]);
    }
  }

  /** The split is undone by joining: the name holds no '=', the value is the
      flag true exactly when the body has no '=', and otherwise the body is
      name=value. */
  lemma SplitOptionJoin(body: string)
    ensures '=' !in SplitOption(body).0
    ensures SplitOption(body).1 == Bool(true) <==> '=' !in body
    ensures SplitOption(body).1.Str? ==> body == SplitOption(body).0 + "=" + SplitOption(body).1.s
  {
    if '=' in body {
      var i := IndexOf(body, '=');
      assert body == body[..i] + "=" + body[i + 1..];
    }
  }

  /** The split of a body without '=' and of a body name=value: later '='
      characters stay in the value. */
  lemma SplitOptionCases(name: string, value: string)
    requires '=' !in name
    ensures SplitOption(name) == (name, Bool(true))
    ensures SplitOption(name + "=" + value) == (name, Str(value))
  {
    var body := name + "=" + value;
    assert body == name + ['='] + value;
    IndexOfJoin(name, '=', value);
    assert body[..|name|] == name;
    assert body[|name| + 1..] == value;
  }

  /** One argument of the foreach at arrangephotos.php:35-71. */
  function TokenEffect(raw: string, longoptions: Options, shortmapping: map<string, string>): Effect
  {
    if |raw| >= 2 && raw[..2] == "--" then
      var (key, value) := SplitOption(raw[2..]);
      if key in longoptions then Store(key, value) else Reject
    else if |raw| >= 1 && raw[0] == '-' then
      var (key, value) := SplitOption(raw[1..]);
      if key in shortmapping then Store(shortmapping[key], value) else Reject
    else Reject
  }

  /** "--name" is the flag true and "--name=value" the string value, stored under
      name when it is a long option and rejected otherwise. */
  lemma LongOptionRule(name: string, value: string, longoptions: Options, shortmapping: map<string, string>)
    requires '=' !in name
    ensures TokenEffect("--" + name, longoptions, shortmapping) ==
      if name in longoptions then Store(name, Bool(true)) else Reject
    ensures TokenEffect("--" + name + "=" + value, longoptions, shortmapping) ==
      if name in longoptions then Store(name, Str(value)) else Reject
  {
    SplitOptionCases(name, value);
    assert ("--" + name)[2..] == name;
    assert ("--" + name + "=" + value)[2..] == name + "=" + value;
  }

  /** An argument with one leading '-' is read as a short option. */
  lemma SingleDash(rest: string, longoptions: Options, shortmapping: map<string, string>)
    requires rest == "" || rest[0] != '-'
    ensures var (key, value) := SplitOption(rest);
      TokenEffect("-" + rest, longoptions, shortmapping) ==
        if key in shortmapping then Store(shortmapping[key], value) else Reject
  {
    var raw := "-" + rest;
    assert raw[1..] == rest;
    if |raw| >= 2 {
      assert raw[1] == rest[0];
      assert raw[..2][1] == raw[1];
    }
  }

  /** "-x" is the flag true and "-x=value" the string value, stored under the
      long name x maps to when x is a short option and rejected otherwise. */
  lemma ShortOptionRule(name: string, value: string, longoptions: Options, shortmapping: map<string, string>)
    requires '=' !in name
    requires name == "" || name[0] != '-'
    ensures TokenEffect("-" + name, longoptions, shortmapping) ==
      if name in shortmapping then Store(shortmapping[name], Bool(true)) else Reject
    ensures TokenEffect("-" + name + "=" + value, longoptions, shortmapping) ==
      if name in shortmapping then Store(shortmapping[name], Str(value)) else Reject
  {
    SplitOptionCases(name, value);
    SingleDash(name, longoptions, shortmapping);
    var rest := name + "=" + value;
    assert "-" + name + "=" + value == "-" + rest;
    assert rest[0] == if name == "" then '=' else name[0];
    SingleDash(rest, longoptions, shortmapping);
  }

  /** An argument that does not start with '-' is unrecognised. */
  lemma PlainArgumentRule(raw: string, longoptions: Options, shortmapping: map<string, string>)
    requires raw == "" || raw[0] != '-'
    ensures TokenEffect(raw, longoptions, shortmapping) == Reject
  {
  }

  /** Only an argument starting with '-' stores anything; an argument starting
      with "--" stores only under a long option, and every stored key is a long
      option or the target of a short mapping. The value is the part after
      the first '=', or true. */
  lemma OnlyOptionsStore(raw: string, longoptions: Options, shortmapping: map<string, string>)
    ensures var eff := TokenEffect(raw, longoptions, shortmapping);
      && (eff.Store? ==> |raw| >= 1 && raw[0] == '-')
      && (eff.Store? && |raw| >= 2 && raw[..2] == "--" ==> eff.key in longoptions)
      && (eff.Store? ==> eff.key in longoptions || eff.key in shortmapping.Values)
      && (eff.Store? && eff.value.Str? ==> '=' in raw)
  {
    var eff := TokenEffect(raw, longoptions, shortmapping);
    if |raw| >= 2 && raw[..2] == "--" {
      SplitOptionJoin(raw[2..]);
    } else if |raw| >= 1 && raw[0] == '-' {
      SplitOptionJoin(raw[1..]);
      if eff.Store? {
        var key := SplitOption(raw[1..]).0;
        assert shortmapping[key] in shortmapping.Values;
      }
    }
  }

  /** The parser state after one more argument: a stored value overwrites any
      earlier value for its key; a rejected argument is appended, verbatim, to
      the unrecognised list. */
  function Apply(state: (Options, seq<string>), raw: string, longoptions: Options, shortmapping: map<string, string>): (Options, seq<string>)
  {
    match TokenEffect(raw, longoptions, shortmapping)
    case Store(key, value) => (state.0[key := value], state.1)
    case Reject => (state.0, state.1 + [raw])
  }

  /** The options and unrecognised arguments after the given arguments, one
      argument at a time from the left. */
  function Parse(tokens: seq<string>, longoptions: Options, shortmapping: map<string, string>): (Options, seq<string>)
  {
    if tokens == [] then (map[], [])
    else Apply(Parse(tokens[..|tokens| - 1], longoptions, shortmapping), tokens[|tokens| - 1], longoptions, shortmapping)
  }

  /** cli_get_params: nothing at all for an empty argv; otherwise the parsed
      options with every long option's default filled in where it was not
      given (arrangephotos.php:73-77), and the unrecognised arguments. */
  function Params(argv: seq<string>, longoptions: Options, shortmapping: map<string, string>): (Options, seq<string>)
  {
    if argv == [] then (map[], [])
    else
      var parsed := Parse(Tokens(argv), longoptions, shortmapping);
      (longoptions + parsed.0, parsed.1)
  }

  /** The rejected arguments, in input order: an independent statement of the
      unrecognised list. */
  function Rejected(tokens: seq<string>, longoptions: Options, shortmapping: map<string, string>): seq<string>
  {
    if tokens == [] then []
    else
      (if TokenEffect(tokens[0], longoptions, shortmapping) == Reject then [tokens[0]] else [])
      + Rejected(tokens[1..], longoptions, shortmapping)
  }

  datatype Option = None | Some(value: Value)

  /** The value stored for key by the last argument that stores one, if any. */
  function LastStored(tokens: seq<string>, key: string, longoptions: Options, shortmapping: map<string, string>): Option
  {
    if tokens == [] then None
    else
      match LastStored(tokens[1..], key, longoptions, shortmapping)
      case Some(v) => Some(v)
      case None =>
        match TokenEffect(tokens[0], longoptions, shortmapping)
        case Store(k, v) => if k == key then Some(v) else None
        case Reject => None
  }

  lemma {:induction false} RejectedAppend(tokens: seq<string>, raw: string, longoptions: Options, shortmapping: map<string, string>)
    ensures Rejected(tokens + [raw], longoptions, shortmapping) ==
      Rejected(tokens, longoptions, shortmapping)
      + (if TokenEffect(raw, longoptions, shortmapping) == Reject then [raw] else [])
  {
    if tokens != [] {
      assert (tokens + [raw])[1..] == tokens[1..] + [raw];
      RejectedAppend(tokens[1..], raw, longoptions, shortmapping);
    }
  }

  lemma {:induction false} LastStoredAppend(tokens: seq<string>, raw: string, key: string, longoptions: Options, shortmapping: map<string, string>)
    ensures LastStored(tokens + [raw], key, longoptions, shortmapping) ==
      match TokenEffect(raw, longoptions, shortmapping)
      case Store(k, v) => if k == key then Some(v) else LastStored(tokens, key, longoptions, shortmapping)
      case Reject => LastStored(tokens, key, longoptions, shortmapping)
  {
    if tokens == [] {
      assert ([raw])[1..] == [];
    } else {
      assert (tokens + [raw])[1..] == tokens[1..] + [raw];
      LastStoredAppend(tokens[1..], raw, key, longoptions, shortmapping);
    }
  }

  /** One step of the parser on the unrecognised list and on one key. */
  lemma ApplyParts(state: (Options, seq<string>), raw: string, key: string, longoptions: Options, shortmapping: map<string, string>)
    ensures var effect := TokenEffect(raw, longoptions, shortmapping);
      var next := Apply(state, raw, longoptions, shortmapping);
      && next.1 == state.1 + (if effect == Reject then [raw] else [])
      && (effect.Store? && effect.key == key ==> key in next.0 && next.0[key] == effect.value)
      && (!(effect.Store? && effect.key == key) ==>
            (key in next.0 <==> key in state.0) && (key in state.0 ==> next.0[key] == state.0[key]))
  {
  }

  /** The unrecognised list is exactly the rejected arguments, in input order. */
  lemma {:induction false} ParseUnrecognized(tokens: seq<string>, longoptions: Options, shortmapping: map<string, string>)
    ensures Parse(tokens, longoptions, shortmapping).1 == Rejected(tokens, longoptions, shortmapping)
  {
    if tokens != [] {
      var init, last := tokens[..|tokens| - 1], tokens[|tokens| - 1];
      var before := Parse(init, longoptions, shortmapping);
      assert Parse(tokens, longoptions, shortmapping) == Apply(before, last, longoptions, shortmapping);
      ParseUnrecognized(init, longoptions, shortmapping);
      ApplyParts(before, last, [], longoptions, shortmapping);
      assert init + [last] == tokens;
      RejectedAppend(init, last, longoptions, shortmapping);
    }
  }

  /** An option is set exactly when some argument stores it, and then holds the
      value of the last such argument: a later occurrence overwrites. */
  lemma {:induction false} ParseOptions(tokens: seq<string>, key: string, longoptions: Options, shortmapping: map<string, string>)
    ensures var options := Parse(tokens, longoptions, shortmapping).0;
      && (key in options <==> LastStored(tokens, key, longoptions, shortmapping).Some?)
      && (key in options ==> options[key] == LastStored(tokens, key, longoptions, shortmapping).value)
  {
    if tokens != [] {
      var init, last := tokens[..|tokens| - 1], tokens[|tokens| - 1];
      var before := Parse(init, longoptions, shortmapping);
      assert Parse(tokens, longoptions, shortmapping) == Apply(before, last, longoptions, shortmapping);
      ParseOptions(init, key, longoptions, shortmapping);
      ApplyParts(before, last, key, longoptions, shortmapping);
      assert init + [last] == tokens;
      LastStoredAppend(init, last, key, longoptions, shortmapping);
    }
  }

  /** With an empty argv both results are empty; no defaults are applied. */
  lemma EmptyArgv(longoptions: Options, shortmapping: map<string, string>)
    ensures Params([], longoptions, shortmapping) == (map[], [])
  {
  }

  /** On a non-empty argv: the unrecognised arguments are the rejected ones
      among the arguments after argv[0] and before the first "--", in order;
      every long option is present, with the value of its last occurrence or
      else its default; any other key is present only when an argument stored
      it (a short option mapped to it). */
  lemma ParamsResult(argv: seq<string>, key: string, longoptions: Options, shortmapping: map<string, string>)
    requires argv != []
    ensures var (options, unrecognized) := Params(argv, longoptions, shortmapping);
      var last := LastStored(Tokens(argv), key, longoptions, shortmapping);
      && unrecognized == Rejected(Tokens(argv), longoptions, shortmapping)
      && (key in options <==> key in longoptions || last.Some?)
      && (key in longoptions ==> options[key] == if last.Some? then last.value else longoptions[key])
      && (key !in longoptions && last.Some? ==> options[key] == last.value)
  {
    ParseUnrecognized(Tokens(argv), longoptions, shortmapping);
    ParseOptions(Tokens(argv), key, longoptions, shortmapping);
  }

  lemma {:induction false} BeforeDoubleDashJoin(argv: seq<string>, rest: seq<string>)
    requires "--" !in argv
    ensures BeforeDoubleDash(argv + ["--"] + rest) == argv
  {
    if argv != [] {
      assert (argv + ["--"] + rest)[1..] == argv[1..] + ["--"] + rest;
      assert argv[0] in argv;
      BeforeDoubleDashJoin(argv[1..], rest);
    }
  }

  /** Everything from the first "--" on is ignored; when argv holds nothing
      before it, only the defaults come back. */
  lemma CutAtDoubleDash(argv: seq<string>, rest: seq<string>, longoptions: Options, shortmapping: map<string, string>)
    requires "--" !in argv
    ensures Params(argv + ["--"] + rest, longoptions, shortmapping) ==
      if argv == [] then (longoptions, []) else Params(argv, longoptions, shortmapping)
  {
    BeforeDoubleDashJoin(argv, rest);
    if argv != [] {
      assert (argv + ["--"] + rest)[0] == argv[0];
      assert BeforeDoubleDash(argv) == argv;
    } else {
      assert (argv + ["--"] + rest)[0] == "--";
      assert longoptions + map[] == longoptions;
    }
  }

  /** The script name argv[0] is ignored, unless it is "--" itself. */
  lemma ScriptNameIgnored(name: string, other: string, args: seq<string>, longoptions: Options, shortmapping: map<string, string>)
    requires name != "--" && other != "--"
    ensures Params([name] + args, longoptions, shortmapping) == Params([other] + args, longoptions, shortmapping)
  {
    assert ([name] + args)[1..] == args == ([other] + args)[1..];
    assert Tokens([name] + args) == BeforeDoubleDash(args);
    assert Tokens([other] + args) == BeforeDoubleDash(args);
  }

  /** The defaults step (arrangephotos.php:73-77): every long option not given
      gets its default; given options keep their values. */
  method ApplyDefaults(parsed: Options, longoptions: Options) returns (options: Options)
    ensures options == longoptions + parsed
  {
    options := parsed;
    var remaining := longoptions.Keys;
    while remaining != {}
      invariant remaining <= longoptions.Keys
      invariant options == (map k | k in longoptions && k !in remaining :: longoptions[k]) + parsed
      decreases remaining
    {
      var name :| name in remaining;
      if name !in options {
        options := options[name := longoptions[name]];
      }
      remaining := remaining - {name};
    }
    assert (map k | k in longoptions && k !in remaining :: longoptions[k]) == longoptions;
  }

  /** cli_get_params as the script runs it: cut at the first "--", drop argv[0],
      fill the options and the unrecognised list argument by argument, then
      apply the defaults. */
  method CliGetParams(argv: seq<string>, longoptions: Options, shortmapping: map<string, string>)
    returns (options: Options, unrecognized: seq<string>)
    ensures (options, unrecognized) == Params(argv, longoptions, shortmapping)
  {
    options, unrecognized := map[], [];
    if argv == [] {
      return;
    }
    // array_search('--', ...) and array_slice
    var key := 0;
    while key < |argv| && argv[key] != "--"
      invariant key <= |BeforeDoubleDash(argv)|
    {
      key := key + 1;
    }
    var rawoptions := argv[..key];
    assert rawoptions == BeforeDoubleDash(argv);
    // unset($rawoptions[0])
    if rawoptions != [] {
      rawoptions := rawoptions[1..];
    }
    assert rawoptions == Tokens(argv);
    var i := 0;
    while i < |rawoptions|
      invariant 0 <= i <= |rawoptions|
      invariant (options, unrecognized) == Parse(rawoptions[..i], longoptions, shortmapping)
    {
      var raw := rawoptions[i];
      assert rawoptions[..i + 1][..i] == rawoptions[..i];
      ghost var next := Apply((options, unrecognized), raw, longoptions, shortmapping);
      assert Parse(rawoptions[..i + 1], longoptions, shortmapping) == next;
      if |raw| >= 2 && raw[..2] == "--" {
        var (name, value) := SplitOption(raw[2..]);
        if name in longoptions {
          assert TokenEffect(raw, longoptions, shortmapping) == Store(name, value);
          options := options[name := value];
        } else {
          assert TokenEffect(raw, longoptions, shortmapping) == Reject;
          unrecognized := unrecognized + [raw];
        }
      } else if |raw| >= 1 && raw[0] == '-' {
        var (name, value) := SplitOption(raw[1..]);
        if name in shortmapping {
          assert TokenEffect(raw, longoptions, shortmapping) == Store(shortmapping[name], value);
          options := options[shortmapping[name] := value];
        } else {
          assert TokenEffect(raw, longoptions, shortmapping) == Reject;
          unrecognized := unrecognized + [raw];
        }
      } else {
        assert TokenEffect(raw, longoptions, shortmapping) == Reject;
        unrecognized := unrecognized + [raw];
      }
      assert (options, unrecognized) == next;
      i := i + 1;
    }
    assert rawoptions[..i] == rawoptions;
    options := ApplyDefaults(options, longoptions);
  }
}
