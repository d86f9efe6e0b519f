/** The console program's argument handling (src/FireSimulation/CommandArgs.cs). */
module CommandLine {
  /** The arguments that ask for the enhanced simulation. */
  const EnhancedFlags: seq<string> := ["e", "enhanced"]

  /** `args.Contains(flag)`: exact, case-sensitive comparison with each argument in turn. */
  function Contains(args: seq<string>, flag: string): (r: bool)
    ensures r <==> exists i :: 0 <= i < |args| && args[i] == flag
  {
    if args == [] then false
    else if args[0] == flag then true
    else
      var rest := Contains(args[1..], flag);
      assert forall i :: 1 <= i < |args| ==> args[i] == args[1..][i - 1];
      rest
  }

  /** The search loop of `ParseEnhanced`: true at the first flag that some argument equals. */
  function AnyFlagIn(flags: seq<string>, args: seq<string>): (r: bool)
    ensures r <==> exists k :: 0 <= k < |flags| && Contains(args, flags[k])
  {
    if flags == [] then false
    else if Contains(args, flags[0]) then true
    else
      var rest := AnyFlagIn(flags[1..], args);
      assert forall k :: 1 <= k < |flags| ==> flags[k] == flags[1..][k - 1];
      rest
  }

  /** `ParseEnhanced`: some argument is exactly "e" or exactly "enhanced". */
  function ParseEnhanced(args: seq<string>): (r: bool)
    ensures r <==> exists i :: 0 <= i < |args| && (args[i] == "e" || args[i] == "enhanced")
  {
    var r := AnyFlagIn(EnhancedFlags, args);
    assert EnhancedFlags[0] == "e" && EnhancedFlags[1] == "enhanced";
    r
  }

  /** The parsed options. */
  datatype CommandArgs = CommandArgs(UseEnhanced: bool)

  /** The constructor: `UseEnhanced` is set once, from the arguments. */
  function NewCommandArgs(args: seq<string>): (c: CommandArgs)
    ensures c.UseEnhanced <==> "e" in args || "enhanced" in args
  {
    CommandArgs(ParseEnhanced(args))
  }

  /** No arguments means the standard simulation. */
  lemma NoArgumentsIsStandard()
    ensures !NewCommandArgs([]).UseEnhanced
  {
  }

  /** Matching is exact and case-sensitive: capitalised or dashed spellings do not count. */
  lemma ExactMatchOnly()
    ensures !ParseEnhanced(["E", "-e", "--enhanced", "Enhanced", "ENHANCED", "en"])
  {
    var args := ["E", "-e", "--enhanced", "Enhanced", "ENHANCED", "en"];
    assert forall i :: 0 <= i < |args| ==> args[i] != "e" && args[i] != "enhanced" by {
      forall i | 0 <= i < |args|
        ensures args[i] != "e" && args[i] != "enhanced"
      {
        assert args[i][0] != 'e' || |args[i]| == 2;
      }
    }
  }

  /** Either flag anywhere among other arguments is enough. */
  lemma FlagAnywhere(before: seq<string>, flag: string, after: seq<string>)
    requires flag in EnhancedFlags
    ensures ParseEnhanced(before + [flag] + after)
  {
    assert (before + [flag] + after)[|before|] == flag;
  }

  /** The result depends on which arguments are present, not on their order or on the others:
      arguments split in two are parsed as the two halves, and reordered arguments parse alike. */
  lemma {:induction false} SplitArguments(a: seq<string>, b: seq<string>)
    ensures ParseEnhanced(a + b) == (ParseEnhanced(a) || ParseEnhanced(b))
  {
    var ab := a + b;
    if ParseEnhanced(a) {
      var i :| 0 <= i < |a| && (a[i] == "e" || a[i] == "enhanced");
      assert ab[i] == a[i];
    }
    if ParseEnhanced(b) {
      var i :| 0 <= i < |b| && (b[i] == "e" || b[i] == "enhanced");
      assert ab[|a| + i] == b[i];
    }
    if ParseEnhanced(ab) {
      var i :| 0 <= i < |ab| && (ab[i] == "e" || ab[i] == "enhanced");
      if i < |a| {
        assert a[i] == ab[i];
      } else {
        assert b[i - |a|] == ab[i];
      }
    }
  }

  /** Reordering the arguments does not change the result. */
  lemma ReorderedArguments(a: seq<string>, b: seq<string>)
    requires multiset(a) == multiset(b)
    ensures ParseEnhanced(a) == ParseEnhanced(b)
  {
    assert ParseEnhanced(a) <==> "e" in multiset(a) || "enhanced" in multiset(a);
    assert ParseEnhanced(b) <==> "e" in multiset(b) || "enhanced" in multiset(b);
  }
}
