/** The pure parts of the benchmark driver: name trimming, suffix
    stripping, artifact naming, time-limit lookup and the short-circuit
    chain of the four stages (D4 compilation, CPOG generation, checking
    with the C checker, checking with the CakeML checker).  Running a
    program is replaced by its observable outcome, which the caller
    supplies. */
module Toolchain {

  import Decimal

  /* ---------------------------------------------------------------
     Character classes (ASCII only; see README)
     --------------------------------------------------------------- */

  predicate IsAlnum(c: char) {
    ('0' <= c <= '9') || ('a' <= c <= 'z') || ('A' <= c <= 'Z')
  }

  predicate IsPrintable(c: char) {
    ' ' <= c <= '~'
  }

  predicate IsLineEnd(c: char) {
    c == '\r' || c == '\n'
  }

  /* ---------------------------------------------------------------
     trim
     --------------------------------------------------------------- */

  /** Drops every leading character that is not alphanumeric, then every
      trailing carriage return or newline.  The result is the slice
      s[i..j] where i is the first alphanumeric position (or |s|). */
  method Trim(s: string) returns (r: string)
    ensures exists i, j :: 0 <= i <= j <= |s| && r == s[i..j]
                           && (forall k :: 0 <= k < i ==> !IsAlnum(s[k]))
                           && (forall k :: j <= k < |s| ==> IsLineEnd(s[k]))
    ensures r == [] || IsAlnum(r[0])
    ensures r == [] || !IsLineEnd(r[|r| - 1])
  {
    var i := 0;
    while i < |s| && !IsAlnum(s[i])
      invariant 0 <= i <= |s|
      invariant forall k :: 0 <= k < i ==> !IsAlnum(s[k])
    {
      i := i + 1;
    }
    var j := |s|;
    while j > i && IsLineEnd(s[j - 1])
      invariant i <= j <= |s|
      invariant forall k :: j <= k < |s| ==> IsLineEnd(s[k])
    {
      j := j - 1;
    }
    r := s[i..j];
  }

  /* ---------------------------------------------------------------
     cleanString
     --------------------------------------------------------------- */

  predicate KeepChar(c: char) {
    c == '\n' || IsPrintable(c)
  }

  /** Reference definition: the kept characters of s, in order. */
  function Kept(s: string): (r: string)
    ensures |r| <= |s|
    ensures forall k :: 0 <= k < |r| ==> KeepChar(r[k])
  {
    if s == [] then [] else (if KeepChar(s[0]) then [s[0]] else []) + Kept(s[1..])
  }

  /** Number of positions of s that hold a kept character. */
  function KeptCount(s: string): nat {
    if s == [] then 0 else (if KeepChar(s[0]) then 1 else 0) + KeptCount(s[1..])
  }

  lemma KeptAppend(s: string, c: char)
    ensures Kept(s + [c]) == Kept(s) + (if KeepChar(c) then [c] else [])
  {
    if s != [] {
      assert (s + [c])[1..] == s[1..] + [c];
      KeptAppend(s[1..], c);
    }
  }

  /** Builds the result one character at a time, as the driver does. */
  method CleanString(s: string) returns (r: string)
    ensures r == Kept(s)
    ensures forall k :: 0 <= k < |r| ==> KeepChar(r[k])
  {
    r := [];
    var i := 0;
    while i < |s|
      invariant 0 <= i <= |s|
      invariant r == Kept(s[..i])
    {
      assert s[..i + 1] == s[..i] + [s[i]];
      KeptAppend(s[..i], s[i]);
      if KeepChar(s[i]) {
        r := r + [s[i]];
      }
      i := i + 1;
    }
    assert s[..i] == s;
  }

  /** Cleaning is idempotent and keeps exactly as many characters as the
      input has kept positions. */
  lemma {:induction false} KeptIdempotent(s: string)
    ensures Kept(Kept(s)) == Kept(s)
    ensures |Kept(s)| == KeptCount(s)
  {
    if s != [] {
      KeptIdempotent(s[1..]);
      if KeepChar(s[0]) {
        var k := Kept(s);
        assert k == [s[0]] + Kept(s[1..]);
        assert k[0] == s[0] && k[1..] == Kept(s[1..]);
        assert Kept(k) == [k[0]] + Kept(k[1..]);
        assert Kept(k[1..]) == Kept(s[1..]);
        assert Kept(k) == k;
      } else {
        assert Kept(s) == Kept(s[1..]);
      }
    }
  }

  /* ---------------------------------------------------------------
     split / join on '.' and stripSuffix
     --------------------------------------------------------------- */

  /** Python's str.split(".") : never empty, fields hold no '.'. */
  function Split(s: string): (fs: seq<string>)
    ensures |fs| >= 1
    ensures forall k, m :: 0 <= k < |fs| && 0 <= m < |fs[k]| ==> fs[k][m] != '.'
    ensures |fs| == 1 <==> '.' !in s
  {
    if s == [] then [""]
    else
      var rest := Split(s[1..]);
      if s[0] == '.' then [""] + rest
      else [[s[0]] + rest[0]] + rest[1..]
  }

  /** Python's ".".join(fs). */
  function Join(fs: seq<string>): string
    requires |fs| >= 1
  {
    if |fs| == 1 then fs[0] else fs[0] + "." + Join(fs[1..])
  }

  /** Joining the fields gives back the original name. */
  lemma {:induction false} JoinSplit(s: string)
    ensures Join(Split(s)) == s
  {
    if s != [] {
      JoinSplit(s[1..]);
      var rest := Split(s[1..]);
      assert s == [s[0]] + s[1..];
      if s[0] == '.' {
        JoinDot(rest);
      } else {
        JoinCons(s[0], rest);
      }
    }
  }

  /** A '.' in front of the fields starts an empty first field. */
  lemma JoinDot(rest: seq<string>)
    requires |rest| >= 1
    ensures Join([""] + rest) == "." + Join(rest)
  {
    assert ([""] + rest)[1..] == rest;
  }

  /** Another character in front of the fields extends the first one. */
  lemma {:induction false} JoinCons(c: char, rest: seq<string>)
    requires |rest| >= 1
    ensures Join([[c] + rest[0]] + rest[1..]) == [c] + Join(rest)
  {
    var fs := [[c] + rest[0]] + rest[1..];
    assert |fs| == |rest| && fs[0] == [c] + rest[0];
    if |rest| == 1 {
      assert Join(fs) == fs[0];
    } else {
      var tail := "." + Join(rest[1..]);
      assert Join(fs) == ([c] + rest[0]) + tail by {
        assert fs[1..] == rest[1..];
      }
      assert Join(rest) == rest[0] + tail;
      assert ([c] + rest[0]) + tail == [c] + (rest[0] + tail);
    }
  }

  lemma {:induction false} JoinSnoc(fs: seq<string>, t: string)
    requires |fs| >= 1
    ensures Join(fs + [t]) == Join(fs) + "." + t
  {
    if |fs| > 1 {
      assert (fs + [t])[1..] == fs[1..] + [t];
      JoinSnoc(fs[1..], t);
    }
  }

  function StripSuffix(name: string): string {
    var fields := Split(name);
    if |fields| > 1 then Join(fields[..|fields| - 1]) else Join(fields)
  }

  /** stripSuffix removes the last '.'-separated field when the name
      holds a '.', and is the identity otherwise. */
  lemma StripSuffixSpec(name: string)
    ensures '.' !in name ==> StripSuffix(name) == name
    ensures '.' in name ==> exists t :: name == StripSuffix(name) + "." + t && '.' !in t
  {
    JoinSplit(name);
    var fs := Split(name);
    if |fs| > 1 {
      var t := fs[|fs| - 1];
      assert forall m :: 0 <= m < |t| ==> t[m] != '.';
      JoinLast(fs, t);
    }
  }

  /** The last field splits off a join of several fields. */
  lemma JoinLast(fs: seq<string>, t: string)
    requires |fs| > 1 && fs[|fs| - 1] == t
    requires forall m :: 0 <= m < |t| ==> t[m] != '.'
    ensures Join(fs) == Join(fs[..|fs| - 1]) + "." + t
    ensures '.' !in t
  {
    var init := fs[..|fs| - 1];
    assert fs == init + [t];
    JoinSnoc(init, t);
  }

  /** Stripping the suffix from a name whose last field is known. */
  lemma StripKnownSuffix(base: string, ext: string)
    requires '.' !in ext
    ensures StripSuffix(base + "." + ext) == base
  {
    var name := base + "." + ext;
    var fb := Split(base);
    SplitDotExt(base, ext);
    JoinSplit(base);
    assert Split(name)[..|Split(name)| - 1] == fb;
  }

  lemma {:induction false} SplitDotExt(base: string, ext: string)
    requires '.' !in ext
    ensures Split(base + "." + ext) == Split(base) + [ext]
  {
    var whole := base + "." + ext;
    if base == [] {
      SplitNoDot(ext);
      assert whole == "." + ext;
      assert whole[0] == '.' && whole[1..] == ext;
    } else {
      SplitDotExt(base[1..], ext);
      assert whole[0] == base[0];
      assert whole[1..] == base[1..] + "." + ext;
      if base[0] != '.' {
        ConsField(base[0], Split(base[1..]), ext);
      }
    }
  }

  /** Extending the first field commutes with adding a last one. */
  lemma ConsField(c: char, inner: seq<string>, ext: string)
    requires |inner| >= 1
    ensures [[c] + (inner + [ext])[0]] + (inner + [ext])[1..] == ([[c] + inner[0]] + inner[1..]) + [ext]
  {
    assert (inner + [ext])[1..] == inner[1..] + [ext];
  }

  lemma {:induction false} SplitNoDot(s: string)
    requires '.' !in s
    ensures Split(s) == [s]
  {
    if s != [] {
      assert s[0] != '.' && '.' !in s[1..];
      SplitNoDot(s[1..]);
      assert s == [s[0]] + s[1..];
    }
  }

  /* ---------------------------------------------------------------
     configuration, artifact names, time limits
     --------------------------------------------------------------- */

  /** The driver's global settings that influence the modelled helpers. */
  datatype Config = Config(
    standardTimeLimit: int,
    timeLimits: map<string, int>,
    forwardOnly: bool,
    mode: char,
    deletionThreadCount: int,
    verbLevel: int)

  const DefaultConfig: Config :=
    Config(600, map["D4" := 2000, "GEN" := 10000, "FCHECK" := 30000, "LCHECK" := 10000],
           false, 'h', 7, 2)

  function CnfName(root: string, home: string): string {
    home + "/" + root + ".cnf"
  }

  function NnfName(cfg: Config, root: string, home: string): string {
    home + "/" + root + "." + (if cfg.forwardOnly then "nnf" else "snnf")
  }

  function CpogName(cfg: Config, root: string, home: string): string {
    home + "/" + root + "." + (if cfg.forwardOnly then "" else "s") + "cpog"
  }

  /** Every artifact name is home/root plus one extension, which
      stripSuffix removes again (for a root and home without '.',
      the extension is the last field). */
  lemma ArtifactNames(cfg: Config, root: string, home: string)
    ensures StripSuffix(CnfName(root, home)) == home + "/" + root
    ensures StripSuffix(NnfName(cfg, root, home)) == home + "/" + root
    ensures StripSuffix(CpogName(cfg, root, home)) == home + "/" + root
    ensures NnfName(cfg, root, home) != CpogName(cfg, root, home)
  {
    assert CnfName(root, home) == (home + "/" + root) + "." + "cnf";
    StripKnownSuffix(home + "/" + root, "cnf");
    var ne := if cfg.forwardOnly then "nnf" else "snnf";
    var ce := (if cfg.forwardOnly then "" else "s") + "cpog";
    assert NnfName(cfg, root, home) == (home + "/" + root) + "." + ne;
    assert CpogName(cfg, root, home) == (home + "/" + root) + "." + ce;
    StripKnownSuffix(home + "/" + root, ne);
    StripKnownSuffix(home + "/" + root, ce);
    var n := |home + "/" + root| + 1;
    assert NnfName(cfg, root, home)[n..] == ne;
    assert CpogName(cfg, root, home)[n..] == ce;
  }

  /** The stage prefixes the driver passes to runProgram. */
  const StagePrefixes: seq<string> := ["D4", "GEN", "CHECK", "CAKEML"]

  function TimeLimit(cfg: Config, prefix: string): (t: int)
    ensures prefix in cfg.timeLimits ==> t == cfg.timeLimits[prefix]
    ensures prefix !in cfg.timeLimits ==> t == cfg.standardTimeLimit
  {
    if prefix in cfg.timeLimits then cfg.timeLimits[prefix] else cfg.standardTimeLimit
  }

  function SetTimeLimit(cfg: Config, t: int): (c: Config)
    ensures c.timeLimits.Keys == cfg.timeLimits.Keys
    ensures forall p :: TimeLimit(c, p) == t
    ensures c.forwardOnly == cfg.forwardOnly && c.mode == cfg.mode
    ensures c.deletionThreadCount == cfg.deletionThreadCount
  {
    cfg.(standardTimeLimit := t, timeLimits := map k | k in cfg.timeLimits :: t)
  }

  /** With the default settings, the two checkers are not keys of the
      limit table and get the standard 600 seconds. */
  lemma DefaultTimeLimits()
    ensures TimeLimit(DefaultConfig, "D4") == 2000
    ensures TimeLimit(DefaultConfig, "GEN") == 10000
    ensures TimeLimit(DefaultConfig, "CHECK") == 600
    ensures TimeLimit(DefaultConfig, "CAKEML") == 600
  {
    assert "CHECK" != "D4" && "CHECK" != "GEN" && "CHECK" != "FCHECK" && "CHECK" != "LCHECK";
    assert "CAKEML" != "D4" && "CAKEML" != "GEN" && "CAKEML" != "FCHECK" && "CAKEML" != "LCHECK";
  }

  /* ---------------------------------------------------------------
     runProgram outcome classification
     --------------------------------------------------------------- */

  /** What happened when a stage's program was started. */
  datatype Exec = TimedOut | Exited(code: int)

  datatype RunResult = RunResult(ok: bool, code: int)

  function RunProgram(e: Exec): (r: RunResult)
    ensures r.ok <==> e.Exited? && e.code == 0
    ensures e.TimedOut? ==> r.code == 1
    ensures e.Exited? ==> r.code == e.code
    ensures r.ok ==> r.code == 0
  {
    match e
    case TimedOut => RunResult(false, 1)
    case Exited(c) => RunResult(c == 0, c)
  }

  /** A printed number is never a "-D" or "-n" flag. */
  lemma NumberNotFlag(i: int)
    ensures Decimal.IntToString(i) != "-D" && Decimal.IntToString(i) != "-n"
  {
    var t := Decimal.IntToString(i);
    Decimal.IntToStringRoundTrip(i);
    if |t| == 2 && t[0] == '-' {
      assert Decimal.IsDigits(t[1..]);
      assert t[1..][0] == t[1];
    }
  }

  /** Arguments the driver passes to the C checker before the file names:
      the verbosity level, the extra log, the deletion thread count when
      there is more than one thread, and -D in forward-only mode.  Each
      number reads back as the configured value. */
  function CheckOptions(cfg: Config): (args: seq<string>)
    ensures |args| == 4 + (if cfg.deletionThreadCount > 1 then 2 else 0) + (if cfg.forwardOnly then 1 else 0)
    ensures args[0] == "-v" && Decimal.IsIntText(args[1]) && Decimal.IntValue(args[1]) == cfg.verbLevel
    ensures args[2] == "-L" && args[3] == "check.log"
    ensures "-n" in args <==> cfg.deletionThreadCount > 1
    ensures cfg.deletionThreadCount > 1 ==>
              args[4] == "-n" && Decimal.IsIntText(args[5]) && Decimal.IntValue(args[5]) == cfg.deletionThreadCount
    ensures "-D" in args <==> cfg.forwardOnly
    ensures cfg.forwardOnly ==> args[|args| - 1] == "-D"
  {
    BaseArgs(cfg) + ThreadArgs(cfg) + ForwardArgs(cfg)
  }

  /** The verbosity and log options that every run passes. */
  function BaseArgs(cfg: Config): (b: seq<string>)
    ensures |b| == 4 && b[0] == "-v" && b[2] == "-L" && b[3] == "check.log"
    ensures Decimal.IsIntText(b[1]) && Decimal.IntValue(b[1]) == cfg.verbLevel
    ensures "-n" !in b && "-D" !in b
  {
    Decimal.IntToStringRoundTrip(cfg.verbLevel);
    NumberNotFlag(cfg.verbLevel);
    assert "-D"[1] == 'D' && "-n"[1] == 'n' && "-v"[1] == 'v' && "-L"[1] == 'L';
    assert |"check.log"| != 2;
    ["-v", Decimal.IntToString(cfg.verbLevel), "-L", "check.log"]
  }

  /** The deletion thread option, present only for more than one thread. */
  function ThreadArgs(cfg: Config): (t: seq<string>)
    ensures |t| == if cfg.deletionThreadCount > 1 then 2 else 0
    ensures cfg.deletionThreadCount > 1 ==>
              t[0] == "-n" && Decimal.IsIntText(t[1]) && Decimal.IntValue(t[1]) == cfg.deletionThreadCount
    ensures "-D" !in t
  {
    if cfg.deletionThreadCount > 1 then
      Decimal.IntToStringRoundTrip(cfg.deletionThreadCount);
      NumberNotFlag(cfg.deletionThreadCount);
      assert "-D"[1] == 'D' && "-n"[1] == 'n';
      ["-n", Decimal.IntToString(cfg.deletionThreadCount)]
    else []
  }

  /** The forward-only option. */
  function ForwardArgs(cfg: Config): (f: seq<string>)
    ensures |f| == if cfg.forwardOnly then 1 else 0
    ensures cfg.forwardOnly ==> f[0] == "-D"
    ensures "-n" !in f
  {
    assert "-D"[1] == 'D' && "-n"[1] == 'n';
    if cfg.forwardOnly then ["-D"] else []
  }

  /* ---------------------------------------------------------------
     runSequence
     --------------------------------------------------------------- */

  /** The file-system facts and the stage outcomes runSequence sees. */
  datatype Env = Env(
    logExists: bool,
    logOpens: bool,
    nnfExists: bool,
    d4: Exec,
    gen: Exec,
    check: Exec,
    cake: Exec)

  function ModePrefix(cfg: Config): string {
    if cfg.mode == 'm' then "mono_" else if cfg.mode == 's' then "structured_" else ""
  }

  function LogName(cfg: Config, root: string): string {
    root + "." + ModePrefix(cfg) + (if cfg.forwardOnly then "forward_" else "") + "log"
  }

  /** The log name is the root plus one extension. */
  lemma LogNameStrips(cfg: Config, root: string)
    ensures StripSuffix(LogName(cfg, root)) == root
  {
    var ext := ModePrefix(cfg) + (if cfg.forwardOnly then "forward_" else "") + "log";
    assert LogName(cfg, root) == root + "." + ext;
    StripKnownSuffix(root, ext);
  }

  /** A Python value as it flows through the `ok = ok and ...` chain:
      a bool, or the (ok, code) tuple runProgram returns. */
  datatype PyVal = PyBool(b: bool) | PyTuple(t: RunResult)

  /** Python truthiness: a non-empty tuple is always true. */
  predicate Truthy(v: PyVal) {
    match v
    case PyBool(b) => b
    case PyTuple(_) => true
  }

  /** What runSequence did: the stage prefixes it ran, its return value,
      and the overall outcome it logged (absent when it returned early). */
  datatype SeqReport = SeqReport(ran: seq<string>, value: PyVal, outcome: string)

  /** runD4: skipped (true) when not forced and the NNF file exists. */
  function D4Stage(force: bool, env: Env): (r: (seq<string>, bool))
    ensures r.0 == [] <==> !force && env.nnfExists
    ensures r.0 == [] ==> r.1
  {
    if !force && env.nnfExists then ([], true) else (["D4"], RunProgram(env.d4).ok)
  }

  /** runSequence exactly as written: runCake returns the whole tuple. */
  function RunSequenceAsWritten(force: bool, env: Env): SeqReport {
    if !force && env.logExists then SeqReport([], PyBool(true), "")
    else if !env.logOpens then SeqReport([], PyBool(false), "")
    else
      var (r1, ok1) := D4Stage(force, env);
      if !ok1 then SeqReport(r1, PyBool(false), "failed")
      else if !RunProgram(env.gen).ok then SeqReport(r1 + ["GEN"], PyBool(false), "failed")
      else if !RunProgram(env.check).ok then SeqReport(r1 + ["GEN", "CHECK"], PyBool(false), "failed")
      else
        var v := PyTuple(RunProgram(env.cake));
        SeqReport(r1 + ["GEN", "CHECK", "CAKEML"], v, if Truthy(v) then "normal" else "failed")
  }

  /** The CakeML checker rejecting the certificate still yields a
      "normal" overall outcome and a true result. */
  lemma CakeFailureHidden()
    ensures var env := Env(false, true, false, Exited(0), Exited(0), Exited(0), Exited(1));
            var rep := RunSequenceAsWritten(true, env);
            !RunProgram(env.cake).ok && rep.outcome == "normal" && Truthy(rep.value)
  {
  }

  /** runSequence with runCake returning only the success flag. */
  function RunSequence(force: bool, env: Env): (rep: SeqReport)
    ensures rep.value.PyBool?
    ensures !force && env.logExists ==> rep.ran == [] && rep.value.b
  {
    if !force && env.logExists then SeqReport([], PyBool(true), "")
    else if !env.logOpens then SeqReport([], PyBool(false), "")
    else
      var (r1, ok1) := D4Stage(force, env);
      var ok2 := ok1 && RunProgram(env.gen).ok;
      var ok3 := ok2 && RunProgram(env.check).ok;
      var ok4 := ok3 && RunProgram(env.cake).ok;
      var ran := r1 + (if ok1 then ["GEN"] else [])
                    + (if ok2 then ["CHECK"] else [])
                    + (if ok3 then ["CAKEML"] else []);
      SeqReport(ran, PyBool(ok4), if ok4 then "normal" else "failed")
  }

  /** Stage i of the chain ran and succeeded (D4 counts as succeeded
      when it was skipped). */
  predicate StageOk(force: bool, env: Env, i: nat)
    requires i < 4
  {
    if i == 0 then D4Stage(force, env).1
    else RunProgram([env.d4, env.gen, env.check, env.cake][i]).ok
  }

  /** Once the log is opened, the outcome is "normal" exactly when all four
      stages succeed, and each stage runs only if all earlier ones
      succeeded; the stages run are an in-order prefix of the chain. */
  lemma RunSequenceChain(force: bool, env: Env)
    requires force || !env.logExists
    requires env.logOpens
    ensures var rep := RunSequence(force, env);
            (rep.outcome == "normal" <==> forall i :: 0 <= i < 4 ==> StageOk(force, env, i))
            && rep.value.b == (rep.outcome == "normal")
            && ("CAKEML" in rep.ran <==> StageOk(force, env, 0) && StageOk(force, env, 1) && StageOk(force, env, 2))
            && ("CHECK" in rep.ran <==> StageOk(force, env, 0) && StageOk(force, env, 1))
            && ("GEN" in rep.ran <==> StageOk(force, env, 0))
  {
    var rep := RunSequence(force, env);
    if forall i :: 0 <= i < 4 ==> StageOk(force, env, i) {
      assert StageOk(force, env, 0) && StageOk(force, env, 1) && StageOk(force, env, 2) && StageOk(force, env, 3);
    }
    if rep.outcome == "normal" {
      assert forall i :: 0 <= i < 4 ==> StageOk(force, env, i);
    }
  }

  /** The sequential batch loop: roots are run in order, and with
      exitWhenError set the loop stops after the first failing root.
      The result is how many roots were started. */
  function RunBatch(results: seq<bool>, exitWhenError: bool): (n: nat)
    ensures n <= |results|
    ensures !exitWhenError ==> n == |results|
    ensures exitWhenError ==> (forall k :: 0 <= k < n - 1 ==> results[k])
    ensures exitWhenError && n < |results| ==> n >= 1 && !results[n - 1]
  {
    if results == [] then 0
    else if !results[0] && exitWhenError then 1
    else 1 + RunBatch(results[1..], exitWhenError)
  }
}
