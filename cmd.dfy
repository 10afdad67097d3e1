/** The command-line parser. The program's arguments (without the program
    name) are a parameter; the result is Go's triple of a command, an
    optional argument list (None for Go's nil slice) and an optional error
    message. */
module Cmd {
  import opened Wrappers

  const ApplicationCommand := "application"
  const HeadofCommand := "headof"
  const HelpCommand := "help"

  datatype Parsed = Parsed(command: string, args: Option<seq<string>>, err: Option<string>)

  /** The result of every rejected command line: no command, no list. */
  function Reject(message: string): (r: Parsed)
    ensures r.err == Some(message) && r.command == "" && r.args == None
  {
    Parsed("", None, Some(message))
  }

  /** `ParseArgs`: `application` with no option, or with `city` and at
      least one city; `headof` with at least one word after its (unchecked)
      second argument; `help` with anything after it. */
  function ParseArgs(args: seq<string>): (r: Parsed)
    ensures r.err.Some? ==> r.command == "" && r.args == None
    ensures r.err.None? ==> |args| > 0 && r.command == args[0]
    ensures r.args.Some? ==> |args| > 2 && r.args.value == args[2..] && |r.args.value| > 0
  {
    if |args| != 0 then
      var command := args[0];
      if command == ApplicationCommand then
        if |args| > 1 then
          var option := args[1];
          if option == "city" then
            if |args| > 2 then Parsed(command, Some(args[2..]), None)
            else Reject("At least on city must be specified after city option")
          else Reject("Unknown option [" + option + "]")
        else Parsed(command, None, None)
      else if command == HeadofCommand then
        if |args| > 2 then Parsed(command, Some(args[2..]), None)
        else Reject("No department given")
      else if command == HelpCommand then
        Parsed(command, None, None)
      else Reject("Unknown command [" + command + "]")
    else Reject("No command given")
  }

  /** The command lines the parser accepts, stated independently of its
      decision tree. */
  predicate Accepted(args: seq<string>) {
    || (|args| == 1 && args[0] == "application")
    || (|args| > 2 && args[0] == "application" && args[1] == "city")
    || (|args| > 2 && args[0] == "headof")
    || (|args| > 0 && args[0] == "help")
  }

  /** A command line parses without error exactly when it is accepted, and
      then the command is one of the three known ones. */
  lemma ParseArgsAccepts(args: seq<string>)
    ensures ParseArgs(args).err.None? <==> Accepted(args)
    ensures ParseArgs(args).err.None? ==>
      ParseArgs(args).command in {ApplicationCommand, HeadofCommand, HelpCommand}
  {
  }

  /** An empty command line is "No command given". */
  lemma NoCommand()
    ensures ParseArgs([]) == Parsed("", None, Some("No command given"))
  {
  }

  /** `application` alone selects every city (a nil list); followed by
      `city` and names it selects those names; `city` without names, or any
      other option, is an error. */
  lemma ApplicationCases(args: seq<string>)
    requires |args| > 0 && args[0] == "application"
    ensures |args| == 1 ==> ParseArgs(args) == Parsed("application", None, None)
    ensures |args| > 2 && args[1] == "city" ==>
      ParseArgs(args) == Parsed("application", Some(args[2..]), None)
    ensures |args| == 2 && args[1] == "city" ==>
      ParseArgs(args) == Reject("At least on city must be specified after city option")
    ensures |args| > 1 && args[1] != "city" ==>
      ParseArgs(args) == Reject("Unknown option [" + args[1] + "]")
  {
  }

  /** `headof` needs at least three words and never looks at the second. */
  lemma HeadofCases(args: seq<string>, other: string)
    requires |args| > 0 && args[0] == "headof"
    ensures |args| > 2 ==> ParseArgs(args) == Parsed("headof", Some(args[2..]), None)
    ensures |args| > 2 ==> ParseArgs(args[1 := other]) == ParseArgs(args)
    ensures |args| <= 2 ==> ParseArgs(args) == Reject("No department given")
  {
    if |args| > 2 {
      assert args[1 := other][2..] == args[2..];
    }
  }

  /** `help` ignores what follows it; any other unknown first word is an
      error naming that word. */
  lemma HelpAndUnknown(args: seq<string>)
    requires |args| > 0
    ensures args[0] == "help" ==> ParseArgs(args) == Parsed("help", None, None)
    ensures args[0] !in {ApplicationCommand, HeadofCommand, HelpCommand} ==>
      ParseArgs(args) == Reject("Unknown command [" + args[0] + "]")
  {
  }

  // ----- The usage examples of the help text -----

  /** The example command lines of the help text as written. The one for
      the head of department spells the command `head`. */
  const HelpExamples: seq<seq<string>> :=
    [["application", "city", "WRO", "JG", "WB"], ["application"], ["head", "department", "LP1"]]

  /** The head-of-department example of the help text is rejected. */
  lemma HeadExampleRejected()
    ensures ParseArgs(HelpExamples[2]) == Reject("Unknown command [head]")
    ensures !Accepted(HelpExamples[2])
  {
    ParseArgsAccepts(HelpExamples[2]);
    assert "Unknown command [" + "head" + "]" == "Unknown command [head]";
  }

  /** The example command lines with the command spelled as the parser
      expects it. */
  const CorrectedHelpExamples: seq<seq<string>> :=
    [["application", "city", "WRO", "JG", "WB"], ["application"], ["headof", "department", "LP1"]]

  /** Every corrected example parses, and the head-of-department one names
      department LP1. */
  lemma CorrectedExamplesAccepted()
    ensures forall i :: 0 <= i < |CorrectedHelpExamples| ==> Accepted(CorrectedHelpExamples[i])
    ensures ParseArgs(CorrectedHelpExamples[2]) == Parsed("headof", Some(["LP1"]), None)
  {
    var ex := CorrectedHelpExamples;
    assert ex[2][2..] == ["LP1"];
  }
}
