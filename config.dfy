/**
 * The configuration of one run: which text to look for, in which file, and
 * whether case is ignored, built from the command-line arguments.
 */
module Config {
  import opened Wrappers

  /** The `Parser` struct: the query, the path of the file to search, and the case toggle. */
  datatype Parser = Parser(query: string, source: string, ignoreCase: bool)

  /** The one error message `Parser::build` reports. */
  const NotEnoughArguments: string := "Error: Not enough arguments provided"

  /**
   * `Parser::build`. `args` is the whole argument list, the program name at
   * index 0. `ignoreCaseSet` is whether the environment variable IGNORE_CASE
   * is set (to a value that is valid Unicode), read by the caller.
   */
  function Build(args: seq<string>, ignoreCaseSet: bool): (r: Result<Parser, string>)
    ensures r.Err? <==> |args| < 3
    ensures r.Err? ==> r.error == NotEnoughArguments
    ensures r.Ok? ==> r.value.query == args[1] && r.value.source == args[2]
    ensures r.Ok? ==> r.value.ignoreCase == ignoreCaseSet
  {
    if |args| < 3 then Err(NotEnoughArguments)
    else Ok(Parser(args[1], args[2], ignoreCaseSet))
  }

  /** The command line `<program> <query> <source>` that asks for configuration `p`. */
  function CommandLine(program: string, p: Parser): (args: seq<string>)
  {
    [program, p.query, p.source]
  }

  /** Building from the command line of a configuration gives that configuration back. */
  lemma BuildCommandLine(program: string, p: Parser)
    ensures Build(CommandLine(program, p), p.ignoreCase) == Ok(p)
  {
  }

  /** Arguments after the source path do not change the configuration. */
  lemma BuildIgnoresExtraArguments(args: seq<string>, extra: seq<string>, ignoreCaseSet: bool)
    requires |args| >= 3
    ensures Build(args + extra, ignoreCaseSet) == Build(args, ignoreCaseSet)
  {
    assert (args + extra)[1] == args[1] && (args + extra)[2] == args[2];
  }

  /** A missing query and a missing source path are one and the same error. */
  lemma BuildMissingArgumentsAlike(args: seq<string>, ignoreCaseSet: bool)
    requires |args| < 3
    ensures Build(args, ignoreCaseSet) == Build([], ignoreCaseSet) == Err(NotEnoughArguments)
  {
  }
}
