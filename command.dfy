/** Turning the `-x` value into the command to spawn and its arguments. */
module Command {
  import opened Wrappers
  import opened JsString

  datatype Command = Command(program: string, args: seq<string>)

  /**
   * `const [command, ...args] = optionX.split(' ')`, taken only when the value
   * is present and not empty; otherwise nothing is spawned.
   * Neither the program nor any argument holds a space.
   */
  function SplitCommand(optionX: Option<string>): (c: Option<Command>)
    ensures c.Some? <==> optionX.Some? && |optionX.value| > 0
    ensures c.Some? ==> ' ' !in c.value.program
    ensures c.Some? ==> forall i :: 0 <= i < |c.value.args| ==> ' ' !in c.value.args[i]
  {
    if optionX.Some? && |optionX.value| > 0 then
      var parts := Split(optionX.value, ' ');
      Some(Command(parts[0], parts[1..]))
    else None
  }

  /** Joining the program and its arguments with single spaces gives back the `-x` value. */
  lemma SplitCommandRoundTrip(x: string)
    requires |x| > 0
    ensures var c := SplitCommand(Some(x)).value; Join([c.program] + c.args, ' ') == x
  {
    var parts := Split(x, ' ');
    JoinSplit(x, ' ');
    assert [parts[0]] + parts[1..] == parts;
  }

  /**
   * When the tokens given after `-x` hold no spaces, the command and its
   * arguments are exactly those tokens.
   */
  lemma SplitCommandOfTokens(tokens: seq<string>)
    requires |tokens| >= 1 && Join(tokens, ' ') != ""
    requires forall i :: 0 <= i < |tokens| ==> ' ' !in tokens[i]
    ensures SplitCommand(Some(Join(tokens, ' '))) == Some(Command(tokens[0], tokens[1..]))
  {
    SplitJoin(tokens, ' ');
  }

  /**
   * A token holding a space is never passed on whole: whatever the tokens after
   * `-x`, when one of them holds a space the command differs from those tokens.
   */
  lemma TokenWithSpaceIsSplit(tokens: seq<string>, i: nat)
    requires i < |tokens| && ' ' in tokens[i]
    ensures SplitCommand(Some(Join(tokens, ' '))) != Some(Command(tokens[0], tokens[1..]))
  {
    var c := SplitCommand(Some(Join(tokens, ' ')));
    if c.Some? && i > 0 && |c.value.args| == |tokens| - 1 {
      assert tokens[1..][i - 1] == tokens[i];
      assert ' ' !in c.value.args[i - 1];
    }
  }

  /** For example, `-x echo "a b"` runs `echo` with the two arguments `a` and `b`. */
  lemma QuotedArgumentIsSplit()
    ensures SplitCommand(Some(Join(["echo", "a b"], ' '))) == Some(Command("echo", ["a", "b"]))
  {
    var tokens := ["echo", "a", "b"];
    assert tokens[1..] == ["a", "b"] && tokens[1..][1..] == ["b"];
    assert Join(tokens, ' ') == Join(["echo", "a b"], ' ');
    SplitCommandOfTokens(tokens);
  }
}
