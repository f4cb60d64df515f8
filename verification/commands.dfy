/** Choosing what the program does from its first argument. */
module Commands {
  import opened Options
  import opened Text

  datatype Command =
    | Help
    | List
    | Add
      /** An unknown command, with the line the program prints for it. */
    | NotValid(line: string)

  /** The line printed for an unknown command; the command is echoed as typed. */
  function NotValidLine(command: string): string {
    "Sorry, " + command + " is not valid"
  }

  /** The `if`/`elsif` chain on `@command`: no command or `help` in any case means help. */
  function Dispatch(command: Option<string>): (c: Command)
    ensures c == Help <==> command.None? || SameIgnoringCase(command.value, "help")
    ensures c == List <==> command.Some? && SameIgnoringCase(command.value, "list")
    ensures c == Add <==> command.Some? && SameIgnoringCase(command.value, "add")
    ensures c.NotValid? <==>
              command.Some? && !SameIgnoringCase(command.value, "help")
              && !SameIgnoringCase(command.value, "list") && !SameIgnoringCase(command.value, "add")
    ensures c.NotValid? ==> c.line == "Sorry, " + command.value + " is not valid"
  {
    match command
    case None => Help
    case Some(cmd) =>
      DowncaseEqualsIff(cmd, "help");
      DowncaseEqualsIff(cmd, "list");
      DowncaseEqualsIff(cmd, "add");
      if Downcase(cmd) == "help" then Help
      else if Downcase(cmd) == "list" then List
      else if Downcase(cmd) == "add" then Add
      else NotValid(NotValidLine(cmd))
  }

  /** Upper- and mixed-case spellings select the same commands as the lower-case ones. */
  lemma CaseVariantsExamples()
    ensures Dispatch(Some("HELP")) == Help
    ensures Dispatch(Some("List")) == List
    ensures Dispatch(Some("aDd")) == Add
  {
    assert SameIgnoringCase("HELP", "help");
    assert SameIgnoringCase("List", "list");
    assert SameIgnoringCase("aDd", "add");
  }

  /** An unknown command is echoed as typed, without lower-casing. */
  lemma UnknownCommandExample()
    ensures Dispatch(Some("Foo")) == NotValid("Sorry, Foo is not valid")
  {
    var lower := Downcase("Foo");
    assert lower[0] == LowerChar('F') == 'f';
    assert lower != "help" && lower != "list" && lower != "add";
  }
}
