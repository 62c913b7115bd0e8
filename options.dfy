/** Command-line parsing (`isOption`, `getOptions`). */
module Options {
  import opened JsString

  /** The two recognised flags, `-e` and `-x`. */
  predicate IsOption(value: string) {
    value == "-e" || value == "-x"
  }

  /** The length of the run of non-flag tokens that opens `s`. */
  function RunLength(s: seq<string>): (n: nat)
    ensures n <= |s|
    ensures forall i :: 0 <= i < n ==> !IsOption(s[i])
    ensures n < |s| ==> IsOption(s[n])
    decreases |s|
  {
    if s == [] || IsOption(s[0]) then 0 else 1 + RunLength(s[1..])
  }

  /** The run of non-flag tokens right after position `i`. */
  function RunAfter(args: seq<string>, i: nat): (run: seq<string>)
    requires i < |args|
    ensures forall j :: 0 <= j < |run| ==> !IsOption(run[j])
    ensures i + 1 + |run| <= |args| && run == args[i + 1..i + 1 + |run|]
    ensures i + 1 + |run| == |args| || IsOption(args[i + 1 + |run|])
  {
    args[i + 1..i + 1 + RunLength(args[i + 1..])]
  }

  /**
   * Reference reading of the arguments that are left, on top of the options
   * recorded so far: a flag records the space-joined run of non-flag tokens
   * after it, replacing any earlier value; any other token is skipped.
   */
  function ParseFrom(options: map<string, string>, args: seq<string>): map<string, string>
    decreases |args|
  {
    if args == [] then options
    else if IsOption(args[0]) then
      var run := RunAfter(args, 0);
      ParseFrom(options[args[0] := Join(run, ' ')], args[1 + |run|..])
    else ParseFrom(options, args[1..])
  }

  /** The options read from a whole argument list. */
  function Parse(args: seq<string>): map<string, string> {
    ParseFrom(map[], args)
  }

  /**
   * `getOptions` over the user arguments (`process.argv` without the first two
   * entries): the outer loop shifts tokens off the front, and after a flag the
   * inner loop shifts off and collects the following non-flag tokens.
   */
  method GetOptions(argv: seq<string>) returns (options: map<string, string>)
    ensures options == Parse(argv)
  {
    options := map[];
    var userArgs := argv;
    while |userArgs| > 0
      invariant ParseFrom(options, userArgs) == Parse(argv)
      decreases |userArgs|
    {
      ghost var before := userArgs;
      var option := userArgs[0];
      userArgs := userArgs[1..];
      if !IsOption(option) {
        SkipStep(options, before);
      } else {
        var args: seq<string> := [];
        while |userArgs| > 0
          invariant before[1..] == args + userArgs
          invariant forall i :: 0 <= i < |args| ==> !IsOption(args[i])
          decreases |userArgs|
        {
          if IsOption(userArgs[0]) {
            break;
          }
          args := args + [userArgs[0]];
          userArgs := userArgs[1..];
        }
        FlagStep(options, before, args, userArgs);
        options := options[option := Join(args, ' ')];
      }
    }
  }

  /** The run that opens `args + rest` is `args` when `rest` is empty or opens with a flag. */
  lemma {:induction false} RunOfFlags(start: seq<string>, args: seq<string>, rest: seq<string>)
    requires start == args + rest
    requires forall i :: 0 <= i < |args| ==> !IsOption(args[i])
    requires rest == [] || IsOption(rest[0])
    ensures RunLength(start) == |args|
    decreases |args|
  {
    if args == [] {
      assert start == rest;
    } else {
      assert start[0] == args[0];
      assert start[1..] == args[1..] + rest;
      RunOfFlags(start[1..], args[1..], rest);
    }
  }

  /** The outer loop's step at a token that is not a flag. */
  lemma SkipStep(options: map<string, string>, before: seq<string>)
    requires before != [] && !IsOption(before[0])
    ensures ParseFrom(options, before) == ParseFrom(options, before[1..])
  {
  }

  /** The outer loop's step at a flag followed by the run `args` and then `rest`. */
  lemma FlagStep(options: map<string, string>, before: seq<string>, args: seq<string>, rest: seq<string>)
    requires before != [] && IsOption(before[0])
    requires before[1..] == args + rest
    requires forall i :: 0 <= i < |args| ==> !IsOption(args[i])
    requires rest == [] || IsOption(rest[0])
    ensures ParseFrom(options, before) == ParseFrom(options[before[0] := Join(args, ' ')], rest)
  {
    RunOfFlags(before[1..], args, rest);
    assert RunAfter(before, 0) == args;
    assert before[1 + |args|..] == rest;
  }

  /** How many tokens one step of `ParseFrom` consumes: a flag with its run, or one other token. */
  function Consumed(args: seq<string>): (d: nat)
    requires args != []
    ensures 1 <= d <= |args|
  {
    if IsOption(args[0]) then 1 + |RunAfter(args, 0)| else 1
  }

  /** Every token a step consumes after its first is a non-flag. */
  lemma ConsumedNonFlags(args: seq<string>)
    requires args != []
    ensures forall j :: 1 <= j < Consumed(args) ==> !IsOption(args[j])
  {
    if IsOption(args[0]) {
      var run := RunAfter(args, 0);
      forall j | 1 <= j < Consumed(args)
        ensures !IsOption(args[j])
      {
        assert args[j] == run[j - 1];
      }
    }
  }

  /** What one step of `ParseFrom` records. */
  function Recorded(options: map<string, string>, args: seq<string>): map<string, string>
    requires args != []
  {
    if IsOption(args[0]) then options[args[0] := Join(RunAfter(args, 0), ' ')] else options
  }

  lemma ParseUnfold(options: map<string, string>, args: seq<string>)
    requires args != []
    ensures ParseFrom(options, args) == ParseFrom(Recorded(options, args), args[Consumed(args)..])
  {
  }

  /** A recorded option survives when its flag does not occur again. */
  lemma {:induction false} ParseKeeps(options: map<string, string>, args: seq<string>, k: string)
    requires k in options && k !in args
    ensures k in ParseFrom(options, args) && ParseFrom(options, args)[k] == options[k]
    decreases |args|
  {
    if args != [] {
      ParseUnfold(options, args);
      var d := Consumed(args);
      assert k !in args[d..] by {
        forall j | 0 <= j < |args[d..]|
          ensures args[d..][j] != k
        {
          assert args[d..][j] == args[d + j];
        }
      }
      ParseKeeps(Recorded(options, args), args[d..], k);
    }
  }

  /** Recording starts from the options so far and adds exactly the flags that occur. */
  lemma {:induction false} ParseFromKeys(options: map<string, string>, args: seq<string>, k: string)
    ensures k in ParseFrom(options, args) <==> k in options || (IsOption(k) && k in args)
    decreases |args|
  {
    if args != [] {
      ParseUnfold(options, args);
      var d := Consumed(args);
      var rest := args[d..];
      ParseFromKeys(Recorded(options, args), rest, k);
      assert args == args[..d] + rest;
      assert args[..d] == [args[0]] + args[1..d];
      if IsOption(args[0]) {
        assert args[1..d] == RunAfter(args, 0);
      }
      assert IsOption(k) ==> k !in args[1..d];
    }
  }

  /** Only `-e` and `-x` are ever recorded, and each is recorded exactly when it occurs. */
  lemma ParseKeys(args: seq<string>, k: string)
    ensures k in Parse(args) <==> IsOption(k) && k in args
  {
    ParseFromKeys(map[], args, k);
  }

  /** The last occurrence at `i` is still the last occurrence in the suffix from `d`. */
  lemma ParseLastShift(args: seq<string>, i: nat, d: nat)
    requires d <= i < |args|
    requires forall j :: i < j < |args| ==> args[j] != args[i]
    ensures args[d..][i - d] == args[i]
    ensures forall j :: i - d < j < |args| - d ==> args[d..][j] != args[i]
    ensures RunAfter(args[d..], i - d) == RunAfter(args, i)
  {
    var rest := args[d..];
    var n := RunLength(args[i + 1..]);
    assert rest[i - d + 1..] == args[i + 1..];
    assert rest[i - d + 1..i - d + 1 + n] == rest[i - d + 1..][..n];
    assert args[i + 1..i + 1 + n] == args[i + 1..][..n];
    forall j | i - d < j < |args| - d
      ensures args[d..][j] != args[i]
    {
      assert args[d..][j] == args[d + j];
    }
  }

  /** Reading from any options so far, the value of a flag comes from its last occurrence. */
  lemma {:induction false} ParseFromLast(options: map<string, string>, args: seq<string>, i: nat)
    requires i < |args| && IsOption(args[i])
    requires forall j :: i < j < |args| ==> args[j] != args[i]
    ensures args[i] in ParseFrom(options, args)
    ensures ParseFrom(options, args)[args[i]] == Join(RunAfter(args, i), ' ')
    decreases |args|
  {
    if i == 0 {
      ParseFromLastHere(options, args);
    } else {
      ParseUnfold(options, args);
      var d := Consumed(args);
      ConsumedNonFlags(args);
      assert d <= i;
      ParseLastShift(args, i, d);
      ParseFromLast(Recorded(options, args), args[d..], i - d);
    }
  }

  /** A flag at the front that does not occur again keeps the value its own step records. */
  lemma ParseFromLastHere(options: map<string, string>, args: seq<string>)
    requires args != [] && IsOption(args[0])
    requires forall j :: 0 < j < |args| ==> args[j] != args[0]
    ensures args[0] in ParseFrom(options, args)
    ensures ParseFrom(options, args)[args[0]] == Join(RunAfter(args, 0), ' ')
  {
    ParseUnfold(options, args);
    var d := Consumed(args);
    assert args[0] !in args[d..] by {
      forall j | 0 <= j < |args[d..]|
        ensures args[d..][j] != args[0]
      {
        assert args[d..][j] == args[d + j];
      }
    }
    ParseKeeps(Recorded(options, args), args[d..], args[0]);
  }

  /**
   * The value of a flag comes from its last occurrence: it is the space-join of
   * the run of non-flag tokens right after that occurrence.
   */
  lemma ParseLast(args: seq<string>, i: nat)
    requires i < |args| && IsOption(args[i])
    requires forall j :: i < j < |args| ==> args[j] != args[i]
    ensures args[i] in Parse(args) && Parse(args)[args[i]] == Join(RunAfter(args, i), ' ')
  {
    ParseFromLast(map[], args, i);
  }

  /** A flag at the end, or right before another flag, records the empty string. */
  lemma ParseEmptyValue(args: seq<string>, i: nat)
    requires i < |args| && IsOption(args[i])
    requires forall j :: i < j < |args| ==> args[j] != args[i]
    requires i + 1 == |args| || IsOption(args[i + 1])
    ensures args[i] in Parse(args) && Parse(args)[args[i]] == ""
  {
    ParseLast(args, i);
    assert RunAfter(args, i) == [];
  }

  /** Tokens before the first flag are discarded. */
  lemma {:induction false} ParseSkipsLeading(junk: seq<string>, args: seq<string>)
    requires forall i :: 0 <= i < |junk| ==> !IsOption(junk[i])
    ensures Parse(junk + args) == Parse(args)
    decreases |junk|
  {
    if junk != [] {
      var all := junk + args;
      assert all[0] == junk[0] && !IsOption(all[0]);
      assert all[1..] == junk[1..] + args;
      ParseSkipsLeading(junk[1..], args);
    } else {
      assert junk + args == args;
    }
  }
}
