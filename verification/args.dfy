/**
 * The start of main(): the default configuration path from $HOME, and the
 * loop over the command-line arguments that sets the exec flag and the
 * configuration path, or ends the program with the help text, the version
 * or a missing-argument error.
 *
 * The environment is a parameter (the value of HOME, if set); printing and
 * exiting are the Action the loop ends with.
 */
module Args {
  import opened CString
  import opened Status
  import opened StringUtil

  /** ARRAY_SIZE(path) in main(). */
  const PATH_SIZE: nat := 256

  const CONFIG_SUFFIX: string := "/.config/wlmenu/config"

  /**
   * get_config_path(): -ENOENT without HOME, otherwise HOME followed by the
   * suffix, cut to size - 1 characters, and 0. strnconcat2() always returns
   * the buffer, so the -ENOMEM result is never produced.
   */
  method GetConfigPath(buf: array<char>, size: nat, home: Option<string>) returns (err: int)
    requires 1 <= size <= buf.Length
    modifies buf
    ensures home.None? ==> err == -ENOENT && buf[..] == old(buf[..])
    ensures home.Some? ==> err == 0 && buf[..] == Bounded(old(buf[..]), size, home.value + CONFIG_SUFFIX)
  {
    if home.None? {
      return -ENOENT;
    }
    var r := StrNConcat2(buf, size, home.value, CONFIG_SUFFIX);
    return 0;
  }

  /** What main() reads from a HOME value into its 256-char path buffer. */
  lemma ConfigPathReads(b: seq<char>, home: string)
    requires |b| == PATH_SIZE && NulFree(home)
    ensures CStr(Bounded(b, PATH_SIZE, home + CONFIG_SUFFIX))
            == (home + CONFIG_SUFFIX)[..Min(|home| + |CONFIG_SUFFIX|, PATH_SIZE - 1)]
    ensures |home| + |CONFIG_SUFFIX| < PATH_SIZE ==> CStr(Bounded(b, PATH_SIZE, home + CONFIG_SUFFIX)) == home + CONFIG_SUFFIX
  {
    assert NulFree(CONFIG_SUFFIX);
    assert NulFree(home + CONFIG_SUFFIX) by {
      forall k | 0 <= k < |home + CONFIG_SUFFIX|
        ensures (home + CONFIG_SUFFIX)[k] != '\0'
      {
        if k >= |home| {
          assert (home + CONFIG_SUFFIX)[k] == CONFIG_SUFFIX[k - |home|];
        }
      }
    }
    BoundedReads(b, PATH_SIZE, home + CONFIG_SUFFIX);
    if |home| + |CONFIG_SUFFIX| < PATH_SIZE {
      BoundedFits(b, PATH_SIZE, home + CONFIG_SUFFIX);
    }
  }

  // ---------------------------------------------------------------------
  // strncpy()
  // ---------------------------------------------------------------------

  /** The first n slots after strncpy(dst, src, n): src, then NULs up to n. */
  function Strncpy(src: string, n: nat): (r: seq<char>)
    ensures |r| == n
  {
    if |src| >= n then src[..n] else src + seq(n - |src|, _ => '\0')
  }

  /** strncpy(): copies up to n characters of src, then pads with NULs. */
  method StrNCopy(dst: array<char>, src: string, n: nat)
    requires NulFree(src) && n <= dst.Length
    modifies dst
    ensures dst[..] == Strncpy(src, n) + old(dst[n..])
  {
    var k := 0;
    while k < n && k < |src|
      invariant 0 <= k <= n && k <= |src|
      invariant forall j :: 0 <= j < k ==> dst[j] == src[j]
      invariant forall j :: k <= j < dst.Length ==> dst[j] == old(dst[j])
    {
      dst[k] := src[k];
      k := k + 1;
    }
    while k < n
      invariant k <= n
      invariant forall j :: 0 <= j < k ==> dst[j] == Strncpy(src, n)[j]
      invariant forall j :: k <= j < dst.Length ==> dst[j] == old(dst[j])
    {
      dst[k] := '\0';
      k := k + 1;
    }
    assert dst[..] == Strncpy(src, n) + old(dst[n..]);
  }

  /**
   * A path argument of 256 characters or more leaves the buffer without a
   * terminator; a shorter one reads back whole.
   */
  lemma StrncpyTerminates(src: string, n: nat)
    requires NulFree(src)
    ensures |src| >= n ==> NulFree(Strncpy(src, n))
    ensures |src| < n ==> CStr(Strncpy(src, n)) == src
  {
    if |src| >= n {
      assert forall k :: 0 <= k < n ==> Strncpy(src, n)[k] == src[k];
    } else {
      CStrOfTerminated(src, seq(n - |src| - 1, _ => '\0'));
      assert Strncpy(src, n) == src + ['\0'] + seq(n - |src| - 1, _ => '\0');
    }
  }

  // ---------------------------------------------------------------------
  // The option loop
  // ---------------------------------------------------------------------

  /** How the option loop ends. */
  datatype Action =
    | Help                              // help(): usage text, exit success
    | Version                           // version(): version text, exit success
    | MissingArgument(option: string)   // die("missing argument for option ...")
    | Start(exec: bool, path: seq<char>, ignored: seq<string>)

  predicate IsExec(a: string) { a == "--exec" || a == "-e" }

  predicate IsHelp(a: string) { a == "--help" || a == "--h" }

  predicate IsVersion(a: string) { a == "--version" || a == "-v" }

  predicate IsConfig(a: string) { a == "--config" || a == "-c" }

  /**
   * The loop from argument i on, with the flag, the 256-char path buffer
   * and the ignored options so far.
   */
  function Scan(argv: seq<string>, i: nat, exec: bool, path: seq<char>, ignored: seq<string>): Action
    decreases |argv| - i
  {
    if i >= |argv| then Start(exec, path, ignored)
    else
      var arg := argv[i];
      if IsExec(arg) then Scan(argv, i + 1, true, path, ignored)
      else if IsHelp(arg) then Help
      else if IsVersion(arg) then Version
      else if i + 1 >= |argv| then MissingArgument(arg)
      else if IsConfig(arg) then Scan(argv, i + 2, exec, Strncpy(argv[i + 1], PATH_SIZE), ignored)
      else Scan(argv, i + 1, exec, path, ignored + [arg])
  }

  /**
   * The for loop over argv in main(): argument 0 is the program name, the
   * path buffer starts with the default path and -c overwrites it.
   */
  method Options(argv: seq<string>, path: array<char>) returns (r: Action)
    requires Pieces(argv) && path.Length == PATH_SIZE
    modifies path
    ensures r == Scan(argv, 1, false, old(path[..]), [])
    ensures r.Start? ==> path[..] == r.path
  {
    var exec := false;
    var ignored: seq<string> := [];
    var i := 1;
    while i < |argv|
      invariant 1 <= i
      invariant Scan(argv, i, exec, path[..], ignored) == Scan(argv, 1, false, old(path[..]), [])
      decreases |argv| - i
    {
      var arg := argv[i];
      var kind := KindOf(arg);
      if kind == ExecOption {
        exec := true;
      } else if kind == HelpOption {
        return Help;
      } else if kind == VersionOption {
        return Version;
      } else if i + 1 >= |argv| {
        return MissingArgument(arg);
      } else if kind == ConfigOption {
        i := i + 1;
        StrNCopy(path, argv[i], PATH_SIZE);
        assert path[..] == Strncpy(argv[i], PATH_SIZE);
      } else {
        ignored := ignored + [arg];
      }
      i := i + 1;
    }
    return Start(exec, path[..], ignored);
  }

  /**
   * Which of the options the loop's streq() tests an argument matches; on
   * C strings streq() is equality (StringUtil.StrEqIsEquality).
   */
  datatype Kind = ExecOption | HelpOption | VersionOption | ConfigOption | OtherArgument

  function KindOf(a: string): Kind
  {
    if IsExec(a) then ExecOption
    else if IsHelp(a) then HelpOption
    else if IsVersion(a) then VersionOption
    else if IsConfig(a) then ConfigOption
    else OtherArgument
  }

  // ---------------------------------------------------------------------
  // Properties of the option loop
  // ---------------------------------------------------------------------

  /** Once set, the exec flag stays set. */
  lemma {:induction false} ExecSticky(argv: seq<string>, i: nat, path: seq<char>, ignored: seq<string>)
    ensures Scan(argv, i, true, path, ignored).Start? ==> Scan(argv, i, true, path, ignored).exec
    decreases |argv| - i
  {
    if i < |argv| {
      var arg := argv[i];
      if IsExec(arg) || (!IsHelp(arg) && !IsVersion(arg) && i + 1 < |argv| && !IsConfig(arg)) {
        ExecSticky(argv, i + 1, path, if IsExec(arg) then ignored else ignored + [arg]);
      } else if !IsHelp(arg) && !IsVersion(arg) && i + 1 < |argv| {
        ExecSticky(argv, i + 2, Strncpy(argv[i + 1], PATH_SIZE), ignored);
      }
    }
  }

  /**
   * -h is not a help option: it is treated like any unknown option, an
   * error in last position and ignored otherwise.
   */
  lemma ShortHelpIsUnknown(argv: seq<string>, i: nat, exec: bool, path: seq<char>, ignored: seq<string>)
    requires i < |argv| && argv[i] == "-h"
    ensures i + 1 == |argv| ==> Scan(argv, i, exec, path, ignored) == MissingArgument("-h")
    ensures i + 1 < |argv| ==> Scan(argv, i, exec, path, ignored) == Scan(argv, i + 1, exec, path, ignored + ["-h"])
  {
  }

  /**
   * Any argument in last position that is not -e, --exec, --help, --h,
   * --version or -v ends with a missing-argument error, unknown ones too.
   */
  lemma LastArgumentNeedsValue(argv: seq<string>, exec: bool, path: seq<char>, ignored: seq<string>)
    requires |argv| >= 1
    requires var a := argv[|argv| - 1]; !IsExec(a) && !IsHelp(a) && !IsVersion(a)
    ensures Scan(argv, |argv| - 1, exec, path, ignored) == MissingArgument(argv[|argv| - 1])
  {
  }

  /**
   * A -c with a value makes the path held so far irrelevant: only the last
   * -c counts.
   */
  lemma ConfigOverrides(argv: seq<string>, i: nat, exec: bool, p1: seq<char>, p2: seq<char>, ignored: seq<string>)
    requires i + 1 < |argv| && IsConfig(argv[i])
    ensures Scan(argv, i, exec, p1, ignored) == Scan(argv, i, exec, p2, ignored)
  {
  }

  /** Without a -c among the remaining arguments, the path is left as it is. */
  lemma {:induction false} PathKept(argv: seq<string>, i: nat, exec: bool, path: seq<char>, ignored: seq<string>)
    requires forall j :: i <= j < |argv| ==> !IsConfig(argv[j])
    ensures Scan(argv, i, exec, path, ignored).Start? ==> Scan(argv, i, exec, path, ignored).path == path
    decreases |argv| - i
  {
    if i < |argv| {
      var arg := argv[i];
      PathKept(argv, i + 1, if IsExec(arg) then true else exec, path,
               if IsExec(arg) then ignored else ignored + [arg]);
    }
  }

  /** An option the loop does not know is skipped alone: the next argument is examined as an option. */
  lemma UnknownSkipsOne(argv: seq<string>, i: nat, exec: bool, path: seq<char>, ignored: seq<string>)
    requires i + 1 < |argv|
    requires var a := argv[i]; !IsExec(a) && !IsHelp(a) && !IsVersion(a) && !IsConfig(a)
    ensures Scan(argv, i, exec, path, ignored) == Scan(argv, i + 1, exec, path, ignored + [argv[i]])
  {
  }

  /** wlmenu -c FILE -e starts with exec set and FILE as the path. */
  lemma ConfigThenExec(path: seq<char>)
    ensures Scan(["wlmenu", "-c", "my.conf", "-e"], 1, false, path, [])
            == Start(true, Strncpy("my.conf", PATH_SIZE), [])
  {
    var argv := ["wlmenu", "-c", "my.conf", "-e"];
    assert IsConfig(argv[1]);
    assert IsExec(argv[3]);
  }
}
