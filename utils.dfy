/** The two pieces of logic in src/utils.rs: the argument-count check and
    the removal of Windows' extended-length path prefix. */
module Utils {
  import opened Text

  /** The extended-length path prefix `\\?\`. */
  const VerbatimPrefix: string := "\\\\?\\"

  /** `args_ok`: the command line (program name and verb included) holds at
      least `num` arguments after the verb. The error and usage text printed
      on failure is not modelled. */
  function ArgsOk(args: seq<string>, num: nat): (ok: bool)
    ensures ok <==> |args| - 2 >= num
  {
    |args| >= num + 2
  }

  /** Asking for fewer arguments never turns an accepted command line into a
      rejected one. */
  lemma ArgsOkMonotone(args: seq<string>, num: nat, fewer: nat)
    requires fewer <= num && ArgsOk(args, num)
    ensures ArgsOk(args, fewer)
  {
  }

  /** The string that `absolute_path` returns for an already canonicalised
      path: the `\\?\` prefix, when present, is cut off once. */
  function AbsolutePath(canonical: string): (r: string)
    ensures StartsWith(canonical, VerbatimPrefix) ==> VerbatimPrefix + r == canonical
    ensures !StartsWith(canonical, VerbatimPrefix) ==> r == canonical
  {
    if StartsWith(canonical, VerbatimPrefix) then canonical[4..] else canonical
  }

  /** Only one prefix is removed: a doubled prefix leaves one behind, so
      the function is not idempotent. */
  lemma AbsolutePathStripsOnce(rest: string)
    ensures AbsolutePath(VerbatimPrefix + VerbatimPrefix + rest) == VerbatimPrefix + rest
    ensures AbsolutePath(AbsolutePath(VerbatimPrefix + VerbatimPrefix + rest)) == rest
  {
    var once := VerbatimPrefix + rest;
    assert StartsWith(VerbatimPrefix + once, VerbatimPrefix);
    assert (VerbatimPrefix + VerbatimPrefix + rest) == VerbatimPrefix + once;
    assert StartsWith(once, VerbatimPrefix);
  }
}
