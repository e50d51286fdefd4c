/** The generation path of `main`: trim the `-init` value, reject an empty
    one, derive the names and materialise the embedded `resources` tree into
    the service folder with the shared template data. */
module Cli {
  import opened Results
  import opened GoStrings
  import opened ServiceName
  import opened Materialize

  /** How a run ends: usage error before any work, the panic on a name
      without letters or digits, or a walk with its outcome. */
  datatype RunResult =
    | InvalidUsage
    | NamePanic
    | Generated(names: Names, outcome: Outcome)

  const ResourcesRoot: string := "resources"

  /** The data every template is executed with. */
  function TemplateData(n: Names): (d: map<string, string>)
    ensures d.Keys == {"Service", "Module", "service"}
  {
    map["Service" := n.exported, "Module" := n.modulePath, "service" := n.unexported]
  }

  /** The walk's environment: the folder name, the template data and the outside world. */
  function RunEnv(n: Names, ok: Op -> bool, engine: (string, Bytes, map<string, string>) -> Rendered): (env: Env)
  {
    Env(n.folder, TemplateData(n), ok, engine)
  }

  /** `main` after flag parsing, up to and including the walk. The folder
      always holds a letter or digit and no `/`, so `filepath.Join(".", folder)`
      is the folder itself. */
  function Run(
    initFlag: string,
    resources: seq<Node>,
    ok: Op -> bool,
    engine: (string, Bytes, map<string, string>) -> Rendered): (r: RunResult)
    ensures r.InvalidUsage? <==> AllSpace(initFlag)
    ensures r.NamePanic? <==>
      !AllSpace(initFlag)
      && forall i :: 0 <= i < |FolderName(TrimSpace(initFlag))| ==> !IsAsciiAlnum(FolderName(TrimSpace(initFlag))[i])
    ensures r.Generated? ==> Derive(TrimSpace(initFlag)) == Success(r.names)
    ensures r.Generated? ==>
      && r.names.modulePath == TrimSpace(initFlag)
      && r.names.folder == FolderName(TrimSpace(initFlag))
      && r.names.folder != []
      && FollowsPlan(RunEnv(r.names, ok, engine), r.outcome,
                     Plan(r.names.folder, ResourcesRoot, r.names.folder, resources))
      && (!ok(ReadDir(ResourcesRoot)) ==> r.outcome.effects == [])
  {
    var initModule := TrimSpace(initFlag);
    TrimSpaceEmpty(initFlag);
    if |initModule| <= 0 then InvalidUsage
    else
      var derived := Derive(initModule);
      EmptyFolderFails(initModule);
      if derived.Failure? then NamePanic
      else
        var names := derived.value;
        var env := RunEnv(names, ok, engine);
        assert env.folder == names.folder;
        var outcome := WalkAndCreate(env, ResourcesRoot, names.folder, resources);
        assert FollowsPlan(env, outcome, Plan(names.folder, ResourcesRoot, names.folder, resources));
        Generated(names, outcome)
  }
}
