/**
 * The command-line shorthand `cch <id> "<title>"`: with at least two
 * arguments after the program name and a first argument that is not a known
 * verb, the arguments are saved as a session.
 */
module Cli {
  import opened Wrappers
  import opened Identifier

  /** The words that are never taken as a session id; only the Rust binary lists "help". */
  function KnownVerbs(d: Dialect): set<string>
  {
    var common := {"save", "s", "ls", "list", "find", "f", "resume", "r", "rm", "del", "web", "w", "-h", "--help"};
    if d == Rust then common + {"help"} else common
  }

  /** The (id, title) the shorthand saves, if `argv` (program name first) is a shorthand save. */
  function Shorthand(d: Dialect, argv: seq<string>): Option<(string, string)>
  {
    if |argv| >= 3 && argv[1] !in KnownVerbs(d) then Some((argv[1], argv[2])) else None
  }

  /** `cch help x` asks for help in Rust but saves a session with id "help" in Python. */
  lemma HelpDiffers(title: string)
    ensures Shorthand(Rust, ["cch", "help", title]) == None
    ensures Shorthand(Python, ["cch", "help", title]) == Some(("help", title))
  {
    assert "help" in KnownVerbs(Rust);
    assert "help" !in KnownVerbs(Python) by {
      assert "help" != "save" && "help" != "s" && "help" != "ls" && "help" != "list";
      assert "help" != "find" && "help" != "f" && "help" != "resume" && "help" != "r";
      assert "help" != "rm" && "help" != "del" && "help" != "web" && "help" != "w";
      assert "help" != "-h" && "help" != "--help";
    }
  }

  /** Apart from "help", both front ends take the same argument lists as shorthand saves. */
  lemma ShorthandAgrees(argv: seq<string>)
    requires |argv| < 2 || argv[1] != "help"
    ensures Shorthand(Rust, argv) == Shorthand(Python, argv)
  {
  }
}
