/**
 * The launcher environment (`os.environ`) as read and completed by `distributed_init` and
 * `_setup_dist_env_from_launcher` in parallel.py.
 */
module Launcher {
  import opened Wrappers
  import opened Decimal

  type Vars = map<string, string>

  const MasterAddr: string := "MASTER_ADDR"
  const MasterPort: string := "MASTER_PORT"
  const DefaultMasterAddr: string := "127.0.0.1"
  const LocalRankVar: string := "LOCAL_RANK"
  const LocalWorldSizeVar: string := "LOCAL_WORLD_SIZE"

  /** The variables `_setup_dist_env_from_launcher` reports when absent, in report order. */
  const RequiredVars: seq<string> := ["RANK", "WORLD_SIZE", "LOCAL_RANK", "LOCAL_WORLD_SIZE"]

  /** The variables whose absence makes `distributed_init` call the launcher setup. */
  const RendezvousVars: seq<string> := ["RANK", "WORLD_SIZE", "MASTER_PORT", "MASTER_ADDR"]

  /** `sub` is `names` with some entries dropped and the rest kept in order. */
  predicate IsSubsequence(sub: seq<string>, names: seq<string>)
    decreases |names|
  {
    sub == [] ||
    (names != [] &&
      ((sub[0] == names[0] && IsSubsequence(sub[1..], names[1..])) || IsSubsequence(sub, names[1..])))
  }

  /** `[v for v in names if v not in os.environ]` */
  function MissingVars(vars: Vars, names: seq<string>): (r: seq<string>)
    ensures forall v :: v in r <==> v in names && v !in vars
    ensures IsSubsequence(r, names)
  {
    if names == [] then []
    else
      var rest := MissingVars(vars, names[1..]);
      if names[0] in vars then rest
      else
        assert ([names[0]] + rest)[1..] == rest;
        [names[0]] + rest
  }

  /** `any([x not in os.environ for x in RendezvousVars])` */
  function LauncherSetupNeeded(vars: Vars): (r: bool)
    ensures r <==> MissingVars(vars, RendezvousVars) != []
  {
    var missing := MissingVars(vars, RendezvousVars);
    assert missing != [] ==> missing[0] in missing;
    exists v :: v in RendezvousVars && v !in vars
  }

  /** The environment after the two default-setting branches of `_setup_dist_env_from_launcher`. */
  function WithLauncherDefaults(vars: Vars, masterPort: int): (r: Vars)
    ensures r.Keys == vars.Keys + {MasterAddr, MasterPort}
    ensures forall k :: k in vars ==> r[k] == vars[k]
    ensures MasterAddr !in vars ==> r[MasterAddr] == DefaultMasterAddr
    ensures MasterPort !in vars ==> r[MasterPort] == IntToString(masterPort)
  {
    var withAddr := if MasterAddr in vars then vars else vars[MasterAddr := DefaultMasterAddr];
    if MasterPort in withAddr then withAddr else withAddr[MasterPort := IntToString(masterPort)]
  }

  datatype EnvError =
    | KeyError(key: string)    // os.environ[key] on an absent key
    | ValueError(key: string)  // int(...) on text that is not a numeral

  /** `int(os.environ[key])` */
  function ReadIntVar(vars: Vars, key: string): (r: Result<int, EnvError>)
    ensures r.Ok? <==> key in vars && ParseInt(vars[key]).Some?
    ensures r.Ok? ==> r.value == ParseInt(vars[key]).value
    ensures r.Err? ==> r.error == (if key in vars then ValueError(key) else KeyError(key))
  {
    if key !in vars then Err(KeyError(key))
    else match ParseInt(vars[key])
      case None => Err(ValueError(key))
      case Some(v) => Ok(v)
  }

  /** Filling in the defaults twice changes nothing the first time did not. */
  lemma WithLauncherDefaultsIdempotent(vars: Vars, port1: int, port2: int)
    ensures WithLauncherDefaults(WithLauncherDefaults(vars, port1), port2) == WithLauncherDefaults(vars, port1)
  {
  }

  /** After the defaults only RANK and WORLD_SIZE can still be missing from the rendezvous set. */
  lemma DefaultsLeaveOnlyRankVars(vars: Vars, port: int)
    ensures MissingVars(WithLauncherDefaults(vars, port), RendezvousVars) ==
      MissingVars(vars, ["RANK", "WORLD_SIZE"])
  {
    var defaulted := WithLauncherDefaults(vars, port);
    var rankVars: seq<string> := ["RANK", "WORLD_SIZE"];
    var masterVars: seq<string> := [MasterPort, MasterAddr];
    assert RendezvousVars == rankVars + masterVars;
    MissingVarsAppend(defaulted, rankVars, masterVars);
    MissingVarsAgree(defaulted, vars, rankVars);
    assert MissingVars(defaulted, masterVars[1..]) == [];
  }

  /** The missing list of a concatenation is the concatenation of the missing lists. */
  lemma {:induction false} MissingVarsAppend(vars: Vars, a: seq<string>, b: seq<string>)
    ensures MissingVars(vars, a + b) == MissingVars(vars, a) + MissingVars(vars, b)
  {
    if a == [] {
      assert a + b == b;
    } else {
      assert (a + b)[0] == a[0] && (a + b)[1..] == a[1..] + b;
      MissingVarsAppend(vars, a[1..], b);
    }
  }

  /** The missing list depends only on which of the names are present. */
  lemma {:induction false} MissingVarsAgree(a: Vars, b: Vars, names: seq<string>)
    requires forall v :: v in names ==> (v in a <==> v in b)
    ensures MissingVars(a, names) == MissingVars(b, names)
  {
    if names != [] {
      MissingVarsAgree(a, b, names[1..]);
    }
  }

  /** The defaults never touch the required variables, so their missing list is unchanged. */
  lemma DefaultsKeepRequired(vars: Vars, port: int)
    ensures MissingVars(WithLauncherDefaults(vars, port), RequiredVars) == MissingVars(vars, RequiredVars)
    ensures ReadIntVar(WithLauncherDefaults(vars, port), LocalRankVar) == ReadIntVar(vars, LocalRankVar)
    ensures ReadIntVar(WithLauncherDefaults(vars, port), LocalWorldSizeVar) ==
      ReadIntVar(vars, LocalWorldSizeVar)
  {
    MissingVarsAgree(WithLauncherDefaults(vars, port), vars, RequiredVars);
  }

  /**
   * The guard of parallel.py:72 only decides whether the setup runs: when no rendezvous
   * variable is missing, MASTER_ADDR and MASTER_PORT are present and the defaults change nothing.
   */
  lemma SetupGuardRedundant(vars: Vars, port: int)
    requires !LauncherSetupNeeded(vars)
    ensures WithLauncherDefaults(vars, port) == vars
  {
    assert RendezvousVars[2] == MasterPort && RendezvousVars[3] == MasterAddr;
  }

  /** A defaulted MASTER_PORT reads back as the port it was written from. */
  lemma DefaultPortReadsBack(vars: Vars, port: int)
    requires MasterPort !in vars
    ensures ReadIntVar(WithLauncherDefaults(vars, port), MasterPort) == Ok(port)
  {
    ParseIntRoundTrip(port);
  }

  /** `os.environ`, a map the launcher setup updates in place. */
  class Environ {
    var vars: Vars

    constructor (initial: Vars)
      ensures vars == initial
    {
      vars := initial;
    }

    /**
     * `_setup_dist_env_from_launcher(args)`: set MASTER_ADDR and MASTER_PORT where absent and
     * report the required variables that are missing (printed by the source, returned here).
     */
    method SetupFromLauncher(masterPort: int) returns (missing: seq<string>)
      modifies this
      ensures vars == WithLauncherDefaults(old(vars), masterPort)
      ensures missing == MissingVars(old(vars), RequiredVars)
      ensures forall v :: v in missing <==> v in RequiredVars && v !in vars
    {
      if MasterAddr !in vars {
        vars := vars[MasterAddr := DefaultMasterAddr];
      }
      if MasterPort !in vars {
        vars := vars[MasterPort := IntToString(masterPort)];
      }
      missing := MissingVars(vars, RequiredVars);
      DefaultsKeepRequired(old(vars), masterPort);
    }

    /**
     * parallel.py:72-74: run the launcher setup when one of RANK, WORLD_SIZE, MASTER_PORT,
     * MASTER_ADDR is absent. Either way the environment ends up with MASTER_ADDR and
     * MASTER_PORT set and LOCAL_RANK and LOCAL_WORLD_SIZE as they were; the report of
     * missing required variables is made only when the setup runs.
     */
    method PrepareRendezvous(masterPort: int) returns (missing: seq<string>)
      modifies this
      ensures vars == WithLauncherDefaults(old(vars), masterPort)
      ensures MasterAddr in vars && MasterPort in vars
      ensures ReadIntVar(vars, LocalRankVar) == ReadIntVar(old(vars), LocalRankVar)
      ensures ReadIntVar(vars, LocalWorldSizeVar) == ReadIntVar(old(vars), LocalWorldSizeVar)
      ensures missing == if LauncherSetupNeeded(old(vars)) then MissingVars(old(vars), RequiredVars) else []
    {
      if LauncherSetupNeeded(vars) {
        missing := SetupFromLauncher(masterPort);
      } else {
        SetupGuardRedundant(vars, masterPort);
        missing := [];
      }
      DefaultsKeepRequired(old(vars), masterPort);
    }
  }
}
