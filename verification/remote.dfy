/**
  * `get_git_remote_url`: the origin URL of a repository, looked up first in
  * `.git/config` and then by asking `git remote get-url origin`.
  *
  * Reading the INI file and running git are outside the model; their outcomes
  * are the inputs.
  */
module RemoteUrl {
  import opened Wrappers
  import opened Text

  /**
    * What reading `<repo>/.git/config` gives. `config.get` applies
    * configparser's basic interpolation, so `originUrl` is the value after it
    * (`%%` read as `%`), and a value it rejects, such as one with a bare `%`,
    * is `Unreadable`.
    */
  datatype GitConfig =
    | Missing                           // the file does not exist
    | Unreadable                        // reading it, or `config.get`, raised
    | Parsed(originUrl: Option<string>) // what `config.get` returned for `url` in `remote "origin"`, if both exist

  /** The outcome of `git -C <repo> remote get-url origin` with a 5-second timeout. */
  datatype GitRun =
    | Failed                                     // git could not be started, or timed out
    | Exited(returnCode: int, stdout: string)

  /** The URL the config file gives, if any. */
  function ConfigUrl(cfg: GitConfig): Option<string>
  {
    if cfg.Parsed? then cfg.originUrl else None
  }

  /** The URL git prints: its stripped standard output when it exits with code 0. */
  function ToolUrl(run: GitRun): (r: Option<string>)
    ensures r.Some? <==> run.Exited? && run.returnCode == 0
    ensures r.Some? ==> r.value == Strip(run.stdout)
  {
    match run
    case Exited(0, out) => Some(Strip(out))
    case _ => None
  }

  /** The first strategy of a fallback chain that finds something. */
  function FirstFound(strategies: seq<Option<string>>): (r: Option<string>)
    ensures r.None? <==> forall k :: 0 <= k < |strategies| ==> strategies[k].None?
    ensures r.Some? ==> exists k :: 0 <= k < |strategies| && strategies[k] == r &&
                                    forall j :: 0 <= j < k ==> strategies[j].None?
  {
    if strategies == [] then None
    else if strategies[0].Some? then strategies[0]
    else
      var r := FirstFound(strategies[1..]);
      assert forall k :: 1 <= k < |strategies| ==> strategies[k] == strategies[1..][k - 1];
      r
  }

  /** `get_git_remote_url`. */
  function GetGitRemoteUrl(cfg: GitConfig, run: GitRun): (r: Option<string>)
    ensures cfg.Missing? ==> r.None?
    ensures cfg.Parsed? && cfg.originUrl.Some? ==> r == cfg.originUrl
    ensures !cfg.Missing? && ConfigUrl(cfg).None? ==>
              (r.Some? <==> run.Exited? && run.returnCode == 0)
    ensures r.Some? && ConfigUrl(cfg).None? ==> r.value == Strip(run.stdout)
  {
    match cfg
    case Missing => None
    case Parsed(Some(url)) => Some(url)
    case _ => ToolUrl(run)
  }

  /**
    * Once `.git/config` exists, the lookup is the fallback chain "config, then
    * git": the first one that finds a URL wins, and none means no remote. A
    * missing config file ends the lookup before git is asked.
    */
  lemma RemoteIsFallbackChain(cfg: GitConfig, run: GitRun)
    ensures GetGitRemoteUrl(cfg, run) ==
            if cfg.Missing? then None else FirstFound([ConfigUrl(cfg), ToolUrl(run)])
  {
    if !cfg.Missing? && ConfigUrl(cfg).None? {
      assert [ConfigUrl(cfg), ToolUrl(run)][1..] == [ToolUrl(run)];
    }
  }
}
