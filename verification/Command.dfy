/** Command paths: the verifier's sub-path test and the issuer's. */
module Command {
  import opened Segments

  /** The verifier's test, argument order as in the source: parent first. */
  predicate CmdIsSubpath(rootCmd: string, cmd: string) {
    if cmd == rootCmd then true
    else if rootCmd <= cmd then "/" <= cmd[|rootCmd|..]
    else false
  }

  /** The issuer's test. */
  predicate IsCmdSubPath(cmd: string, parentCmd: string) {
    cmd == parentCmd || parentCmd + "/" <= cmd
  }

  /** The verifier's test is exactly the prefix order on slash-separated segments,
      for every pair of strings. */
  lemma SubpathIsSegmentPrefix(rootCmd: string, cmd: string)
    ensures CmdIsSubpath(rootCmd, cmd) <==> Split(rootCmd, '/') <= Split(cmd, '/')
  {
    PrefixIsSegmentPrefix(rootCmd, cmd, '/');
    SubpathAgrees(rootCmd, cmd);
    if Split(rootCmd, '/') == Split(cmd, '/') {
      SplitInjective(rootCmd, cmd, '/');
    }
  }

  /** Issuer and verifier decide alike. */
  lemma SubpathAgrees(rootCmd: string, cmd: string)
    ensures CmdIsSubpath(rootCmd, cmd) <==> IsCmdSubPath(cmd, rootCmd)
  {
    if rootCmd <= cmd {
      assert cmd == rootCmd + cmd[|rootCmd|..];
    }
    if rootCmd + "/" <= cmd {
      assert cmd[|rootCmd|] == '/';
    }
  }

  /** The sub-path relation is a partial order. */
  lemma SubpathIsPartialOrder(a: string, b: string, c: string)
    ensures CmdIsSubpath(a, a)
    ensures CmdIsSubpath(a, b) && CmdIsSubpath(b, a) ==> a == b
    ensures CmdIsSubpath(a, b) && CmdIsSubpath(b, c) ==> CmdIsSubpath(a, c)
  {
    SubpathIsSegmentPrefix(a, b);
    SubpathIsSegmentPrefix(b, a);
    SubpathIsSegmentPrefix(b, c);
    SubpathIsSegmentPrefix(a, c);
    if Split(a, '/') == Split(b, '/') {
      SplitInjective(a, b, '/');
    }
  }
}
