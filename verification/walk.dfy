/** The recursive copy of the embedded `resources` tree into the new
    service folder: every file is read, rendered as a template with the
    shared template data and written under its destination path, where an
    entry called `service` takes the folder name and `.tmpl` is deleted
    from the destination path of a file. */
module Materialize {
  import opened Results
  import opened GoStrings

  type Bytes = seq<bv8>

  /** An entry of the embedded file system, in the order `ReadDir` lists it. */
  datatype Node =
    | Dir(name: string, children: seq<Node>)
    | File(name: string, content: Bytes)

  /** A file-system call the walk makes; the environment decides whether it succeeds. */
  datatype Op =
    | ReadDir(path: string)
    | ReadFile(path: string)
    | MkdirAll(path: string)
    | WriteFile(path: string)

  /** What the template engine makes of one file. */
  datatype Rendered = Output(bytes: Bytes) | ParseFailed | ExecuteFailed

  /** Everything the walk reads from outside: the service folder name, the
      template data, the outcome of each file-system call and the engine. */
  datatype Env = Env(
    folder: string,
    data: map<string, string>,
    ok: Op -> bool,
    engine: (string, Bytes, map<string, string>) -> Rendered)

  /** A visible change to the disk. */
  datatype Effect = Made(dir: string) | Wrote(path: string, bytes: Bytes)

  datatype WalkError =
    | ReadDirError
    | ReadFileError
    | CreateDirError
    | ParseError
    | ExecuteError
    | WriteError

  /** The changes made, in order, and the error that stopped the walk, if any. */
  datatype Outcome = Outcome(effects: seq<Effect>, error: Option<WalkError>)

  const TemplateSuffix: string := ".tmpl"

  /** `path.Join` / `filepath.Join` of a directory and one entry name. */
  function JoinPath(dir: string, name: string): (r: string) {
    dir + "/" + name
  }

  /** The destination name of an entry: `service` is renamed to the folder. */
  function DestName(name: string, folder: string): (r: string)
    ensures name == "service" ==> r == folder
    ensures r != name ==> name == "service" && r == folder
  {
    if name == "service" then folder else name
  }

  /** The destination path of a file entry found in destination directory
      `dest`. `.tmpl` is deleted from the directory part and from the entry
      name separately, since no occurrence spans the joining `/`; a path
      without `.tmpl` is kept as it is. */
  function FileDest(dest: string, name: string, folder: string): (r: string)
    ensures r == DeleteAll(dest, TemplateSuffix) + "/" + DeleteAll(DestName(name, folder), TemplateSuffix)
    ensures r == JoinPath(dest, DestName(name, folder))
      <==> !Occurs(JoinPath(dest, DestName(name, folder)), TemplateSuffix)
  {
    var n := DestName(name, folder);
    assert '/' !in TemplateSuffix;
    assert JoinPath(dest, n) == dest + ['/'] + n;
    DeleteAllAround(dest, '/', n, TemplateSuffix);
    DeleteAll(JoinPath(dest, n), TemplateSuffix)
  }

  // ----------------------------------------------------------------------
  // The walk as the program performs it
  // ----------------------------------------------------------------------

  /** Lists `src` (whose entries are `entries`) and materialises each entry
      under `dest`, stopping at the first error. The walk carries out the
      steps of its plan in order (see `FollowsPlan`): it succeeds exactly
      when every step's calls succeed, and otherwise it stops at the first
      step that fails, with that step's first failing call as its error and
      everything before it done. */
  function WalkAndCreate(env: Env, src: string, dest: string, entries: seq<Node>): (r: Outcome)
    ensures !env.ok(ReadDir(src)) ==> r == Outcome([], Some(ReadDirError))
    ensures FollowsPlan(env, r, Plan(env.folder, src, dest, entries))
    decreases entries, 1
  {
    if !env.ok(ReadDir(src)) then
      FollowsPlanUnlisted(env, src, PlanEntries(env.folder, src, dest, entries));
      Outcome([], Some(ReadDirError))
    else
      var r := WalkEntries(env, src, dest, entries);
      FollowsPlanListed(env, r, src, PlanEntries(env.folder, src, dest, entries));
      r
  }

  /** The loop over the listed entries. */
  function WalkEntries(env: Env, src: string, dest: string, entries: seq<Node>): (r: Outcome)
    ensures FollowsPlan(env, r, PlanEntries(env.folder, src, dest, entries))
    decreases entries, 0
  {
    if entries == [] then
      FollowsPlanEmpty(env);
      Outcome([], None)
    else
      var planned := PlanNode(env.folder, src, dest, entries[0]);
      var later := PlanEntries(env.folder, src, dest, entries[1..]);
      var first := Visit(env, src, dest, entries[0]);
      if first.error.Some? then
        FollowsPlanStop(env, first, planned, later);
        first
      else
        var rest := WalkEntries(env, src, dest, entries[1..]);
        FollowsPlanThen(env, first, rest, planned, later);
        Outcome(first.effects + rest.effects, rest.error)
  }

  /** One entry: a file is created, a directory is walked. */
  function Visit(env: Env, src: string, dest: string, e: Node): (r: Outcome)
    ensures FollowsPlan(env, r, PlanNode(env.folder, src, dest, e))
    decreases e, 2
  {
    match e
    case File(name, content) =>
      CreateFile(env, JoinPath(src, name), FileDest(dest, name, env.folder), content)
    case Dir(name, children) =>
      WalkAndCreate(env, JoinPath(src, name), JoinPath(dest, DestName(name, env.folder)), children)
  }

  /** The file branch of the loop: read, create the parent directory when the
      path has one, parse, execute, write. It succeeds exactly when all of
      these calls succeed, and then it has made the parent and written the
      rendered file. Otherwise its error is the first call that failed, and
      the parent directory stays behind when the failure came after it. */
  function CreateFile(env: Env, src: string, dest: string, content: Bytes): (r: Outcome)
    ensures r.error.None? <==> FileOk(env, PlannedFile(src, dest, content))
    ensures FollowsPlan(env, r, [MakeFile(PlannedFile(src, dest, content))])
  {
    var p := PlannedFile(src, dest, content);
    OneFileStep(env, p);
    if !env.ok(ReadFile(src)) then Outcome([], Some(ReadFileError))
    else
      var dir := SplitPath(dest).0;
      if |dir| > 0 && !env.ok(MkdirAll(dir)) then Outcome([], Some(CreateDirError))
      else
        var made := if |dir| > 0 then [Made(dir)] else [];
        match env.engine(src, content, env.data)
        case ParseFailed => Outcome(made, Some(ParseError))
        case ExecuteFailed => Outcome(made, Some(ExecuteError))
        case Output(bytes) =>
          if !env.ok(WriteFile(dest)) then Outcome(made, Some(WriteError))
          else Outcome(made + [Wrote(dest, bytes)], None)
  }

  // ----------------------------------------------------------------------
  // The plan: the steps of the walk, flattened
  // ----------------------------------------------------------------------

  /** One file leaf of the tree, with where it is read from and written to. */
  datatype PlannedFile = PlannedFile(src: string, dest: string, content: Bytes)

  /** One step of the walk: listing a directory or materialising a file. */
  datatype Step = ListDir(dir: string) | MakeFile(file: PlannedFile)

  /** The steps of walking `src`, whose entries are `entries`, into `dest`:
      `src` is listed, then the entries follow in listing order, each
      directory walked depth first. */
  function Plan(folder: string, src: string, dest: string, entries: seq<Node>): (r: seq<Step>)
    decreases entries, 1
  {
    [ListDir(src)] + PlanEntries(folder, src, dest, entries)
  }

  function PlanEntries(folder: string, src: string, dest: string, entries: seq<Node>): (r: seq<Step>)
    decreases entries, 0
  {
    if entries == [] then []
    else PlanNode(folder, src, dest, entries[0]) + PlanEntries(folder, src, dest, entries[1..])
  }

  function PlanNode(folder: string, src: string, dest: string, e: Node): (r: seq<Step>)
    decreases e, 2
  {
    match e
    case File(name, content) =>
      [MakeFile(PlannedFile(JoinPath(src, name), FileDest(dest, name, folder), content))]
    case Dir(name, children) =>
      Plan(folder, JoinPath(src, name), JoinPath(dest, DestName(name, folder)), children)
  }

  /** The files the steps materialise, in order. */
  function Files(plan: seq<Step>): (r: seq<PlannedFile>) {
    if plan == [] then []
    else (if plan[0].MakeFile? then [plan[0].file] else []) + Files(plan[1..])
  }

  /** The number of file leaves, counted independently of the plan. */
  function FileCount(entries: seq<Node>): (n: nat)
    decreases entries, 0
  {
    if entries == [] then 0 else NodeFileCount(entries[0]) + FileCount(entries[1..])
  }

  function NodeFileCount(e: Node): (n: nat)
    decreases e, 1
  {
    match e
    case File(_, _) => 1
    case Dir(_, children) => FileCount(children)
  }

  function RenderedBytes(r: Rendered): (b: Bytes) {
    if r.Output? then r.bytes else []
  }

  /** The effects of materialising one planned file when nothing fails. */
  function FileTrace(env: Env, p: PlannedFile): (r: seq<Effect>) {
    var dir := SplitPath(p.dest).0;
    (if |dir| > 0 then [Made(dir)] else [])
      + [Wrote(p.dest, RenderedBytes(env.engine(p.src, p.content, env.data)))]
  }

  function Trace(env: Env, files: seq<PlannedFile>): (r: seq<Effect>) {
    if files == [] then [] else FileTrace(env, files[0]) + Trace(env, files[1..])
  }

  function NumWrites(effects: seq<Effect>): (n: nat) {
    if effects == [] then 0
    else (if effects[0].Wrote? then 1 else 0) + NumWrites(effects[1..])
  }

  predicate IsPrefix(a: seq<Effect>, b: seq<Effect>) {
    |a| <= |b| && b[..|a|] == a
  }

  /** Every call made for planned file `p` succeeds: the read, the parent
      directory when the path has one, the engine and the write. */
  predicate FileOk(env: Env, p: PlannedFile) {
    var dir := SplitPath(p.dest).0;
    && env.ok(ReadFile(p.src))
    && (|dir| > 0 ==> env.ok(MkdirAll(dir)))
    && env.engine(p.src, p.content, env.data).Output?
    && env.ok(WriteFile(p.dest))
  }

  /** Every call a step makes succeeds. */
  predicate StepOk(env: Env, s: Step) {
    match s
    case ListDir(d) => env.ok(ReadDir(d))
    case MakeFile(p) => FileOk(env, p)
  }

  predicate AllStepsOk(env: Env, plan: seq<Step>) {
    forall i :: 0 <= i < |plan| ==> StepOk(env, plan[i])
  }

  /** The index of the first step whose calls do not all succeed, or the
      length of the plan when there is none. */
  function FirstFailing(env: Env, plan: seq<Step>): (k: nat)
    ensures k <= |plan|
    ensures forall i :: 0 <= i < k ==> StepOk(env, plan[i])
    ensures k < |plan| ==> !StepOk(env, plan[k])
  {
    if plan == [] || !StepOk(env, plan[0]) then 0
    else 1 + FirstFailing(env, plan[1..])
  }

  /** `e` reports the first call of step `s` that fails, in the order the
      code makes them: read, make the parent, parse, execute, write. */
  predicate Blames(env: Env, e: WalkError, s: Step) {
    match s
    case ListDir(d) => e == ReadDirError && !env.ok(ReadDir(d))
    case MakeFile(p) =>
      var read := env.ok(ReadFile(p.src));
      var dir := SplitPath(p.dest).0;
      var made := read && (|dir| > 0 ==> env.ok(MkdirAll(dir)));
      var rendered := env.engine(p.src, p.content, env.data);
      match e
      case ReadDirError => false
      case ReadFileError => !read
      case CreateDirError => read && |dir| > 0 && !env.ok(MkdirAll(dir))
      case ParseError => made && rendered == ParseFailed
      case ExecuteError => made && rendered == ExecuteFailed
      case WriteError => made && rendered.Output? && !env.ok(WriteFile(p.dest))
  }

  /** What a failing step has changed before it fails: a file step that got
      past its read and made its parent directory leaves that directory. */
  function Partial(env: Env, s: Step): (r: seq<Effect>) {
    match s
    case ListDir(_) => []
    case MakeFile(p) =>
      var dir := SplitPath(p.dest).0;
      if env.ok(ReadFile(p.src)) && |dir| > 0 && env.ok(MkdirAll(dir)) then [Made(dir)] else []
  }

  /** The outcome of carrying out `plan` step by step, stopping at the first
      step that fails. When no step fails it succeeds with the trace of all
      planned files. Otherwise its error is the first failing call of that
      step, and its effects are the trace of the files planned before that
      step followed by what the step changed before failing. */
  predicate FollowsPlan(env: Env, o: Outcome, plan: seq<Step>) {
    var k := FirstFailing(env, plan);
    if k == |plan| then o == Outcome(Trace(env, Files(plan)), None)
    else StoppedAt(env, o, plan, k)
  }

  /** `o` is the outcome of stopping at step `k`, the steps before it done. */
  predicate StoppedAt(env: Env, o: Outcome, plan: seq<Step>, k: nat)
    requires k < |plan|
  {
    && o.error.Some?
    && Blames(env, o.error.value, plan[k])
    && o.effects == Trace(env, Files(plan[..k])) + Partial(env, plan[k])
  }

  // ----------------------------------------------------------------------
  // Facts about plans and traces
  // ----------------------------------------------------------------------

  lemma {:induction false} TraceAppend(env: Env, a: seq<PlannedFile>, b: seq<PlannedFile>)
    ensures Trace(env, a + b) == Trace(env, a) + Trace(env, b)
    decreases |a|
  {
    if a == [] {
      assert a + b == b;
    } else {
      assert (a + b)[0] == a[0];
      assert (a + b)[1..] == a[1..] + b;
      TraceAppend(env, a[1..], b);
      var h := FileTrace(env, a[0]);
      assert h + (Trace(env, a[1..]) + Trace(env, b)) == (h + Trace(env, a[1..])) + Trace(env, b);
    }
  }

  lemma {:induction false} FilesAppend(a: seq<Step>, b: seq<Step>)
    ensures Files(a + b) == Files(a) + Files(b)
    decreases |a|
  {
    if a == [] {
      assert a + b == b;
    } else {
      assert (a + b)[0] == a[0];
      assert (a + b)[1..] == a[1..] + b;
      FilesAppend(a[1..], b);
      var h := if a[0].MakeFile? then [a[0].file] else [];
      assert h + (Files(a[1..]) + Files(b)) == (h + Files(a[1..])) + Files(b);
    }
  }

  /** The first failing step of `a + b` lies in `a` if `a` has one, and is
      otherwise the first failing step of `b`, shifted past `a`. */
  lemma {:induction false} FirstFailingAppend(env: Env, a: seq<Step>, b: seq<Step>)
    ensures FirstFailing(env, a + b) ==
      (if FirstFailing(env, a) < |a| then FirstFailing(env, a) else |a| + FirstFailing(env, b))
    decreases |a|
  {
    if a == [] {
      assert a + b == b;
    } else {
      assert (a + b)[0] == a[0];
      assert (a + b)[1..] == a[1..] + b;
      if StepOk(env, a[0]) {
        FirstFailingAppend(env, a[1..], b);
      }
    }
  }

  lemma {:induction false} NumWritesAppend(x: seq<Effect>, y: seq<Effect>)
    ensures NumWrites(x + y) == NumWrites(x) + NumWrites(y)
    decreases |x|
  {
    if x == [] {
      assert x + y == y;
    } else {
      assert (x + y)[0] == x[0];
      assert (x + y)[1..] == x[1..] + y;
      NumWritesAppend(x[1..], y);
    }
  }

  /** A trace holds one write per planned file. */
  lemma {:induction false} NumWritesTrace(env: Env, files: seq<PlannedFile>)
    ensures NumWrites(Trace(env, files)) == |files|
    decreases |files|
  {
    if files != [] {
      var p := files[0];
      var dir := SplitPath(p.dest).0;
      var made: seq<Effect> := if |dir| > 0 then [Made(dir)] else [];
      var w := Wrote(p.dest, RenderedBytes(env.engine(p.src, p.content, env.data)));
      assert NumWrites(made) == 0;
      assert NumWrites([w]) == 1;
      NumWritesAppend(made, [w]);
      NumWritesTrace(env, files[1..]);
      NumWritesAppend(FileTrace(env, p), Trace(env, files[1..]));
    }
  }

  lemma FollowsPlanEmpty(env: Env)
    ensures FollowsPlan(env, Outcome([], None), [])
  {
  }

  /** A walk whose listing of `d` fails stops at once, with nothing done. */
  lemma {:induction false} FollowsPlanUnlisted(env: Env, d: string, plan: seq<Step>)
    requires !env.ok(ReadDir(d))
    ensures FollowsPlan(env, Outcome([], Some(ReadDirError)), [ListDir(d)] + plan)
  {
    var whole := [ListDir(d)] + plan;
    assert whole[0] == ListDir(d);
    assert FirstFailing(env, whole) == 0;
    assert whole[..0] == [];
  }

  /** A walk that listed `d` and then followed `plan` follows `plan` with
      the listing of `d` in front. */
  lemma {:induction false} FollowsPlanListed(env: Env, o: Outcome, d: string, plan: seq<Step>)
    requires env.ok(ReadDir(d)) && FollowsPlan(env, o, plan)
    ensures FollowsPlan(env, o, [ListDir(d)] + plan)
  {
    var head := [ListDir(d)];
    FirstFailingAppend(env, head, plan);
    assert FirstFailing(env, head) == 1 by {
      assert head[1..] == [];
    }
    assert Files(head) == [] by {
      assert head[1..] == [];
    }
    FilesAppend(head, plan);
    assert Files(head + plan) == Files(plan);
    var k := FirstFailing(env, plan);
    if k < |plan| {
      assert (head + plan)[..1 + k] == head + plan[..k];
      FilesAppend(head, plan[..k]);
      assert Files(head + plan[..k]) == Files(plan[..k]);
      assert (head + plan)[1 + k] == plan[k];
    }
  }

  /** A walk that stopped inside the first part of a plan follows the whole
      plan. */
  lemma {:induction false} FollowsPlanStop(env: Env, o: Outcome, a: seq<Step>, b: seq<Step>)
    requires FollowsPlan(env, o, a) && o.error.Some?
    ensures FollowsPlan(env, o, a + b)
  {
    FirstFailingAppend(env, a, b);
    var k := FirstFailing(env, a);
    assert (a + b)[..k] == a[..k];
    assert (a + b)[k] == a[k];
  }

  /** A walk that completed the first part of a plan and then followed the
      rest of it follows the whole plan. */
  lemma {:induction false} FollowsPlanThen(env: Env, first: Outcome, rest: Outcome, a: seq<Step>, b: seq<Step>)
    requires FollowsPlan(env, first, a) && first.error.None?
    requires FollowsPlan(env, rest, b)
    ensures FollowsPlan(env, Outcome(first.effects + rest.effects, rest.error), a + b)
  {
    FirstFailingAppend(env, a, b);
    assert FirstFailing(env, a) == |a|;
    assert first.effects == Trace(env, Files(a));
    if FirstFailing(env, b) == |b| {
      ThenDone(env, rest, a, b);
    } else {
      ThenStopped(env, rest, a, b, FirstFailing(env, b));
    }
  }

  lemma {:induction false} ThenDone(env: Env, rest: Outcome, a: seq<Step>, b: seq<Step>)
    requires FirstFailing(env, a) == |a| && FirstFailing(env, b) == |b|
    requires FirstFailing(env, a + b) == |a| + |b|
    requires rest == Outcome(Trace(env, Files(b)), None)
    ensures FollowsPlan(env, Outcome(Trace(env, Files(a)) + rest.effects, rest.error), a + b)
  {
    FilesAppend(a, b);
    TraceAppend(env, Files(a), Files(b));
  }

  lemma {:induction false} ThenStopped(env: Env, rest: Outcome, a: seq<Step>, b: seq<Step>, k: nat)
    requires k < |b| && StoppedAt(env, rest, b, k)
    ensures StoppedAt(env, Outcome(Trace(env, Files(a)) + rest.effects, rest.error), a + b, |a| + k)
  {
    TraceOfPrefix(env, a, b, k);
    assert (a + b)[|a| + k] == b[k];
    AssociateEffects(Trace(env, Files(a)), Trace(env, Files(b[..k])), Partial(env, b[k]));
  }

  /** The files planned before position `|a| + k` of `a + b` are those of `a`
      followed by those of `b` before `k`. */
  lemma {:induction false} TraceOfPrefix(env: Env, a: seq<Step>, b: seq<Step>, k: nat)
    requires k <= |b|
    ensures Trace(env, Files((a + b)[..|a| + k])) == Trace(env, Files(a)) + Trace(env, Files(b[..k]))
  {
    assert (a + b)[..|a| + k] == a + b[..k];
    FilesAppend(a, b[..k]);
    TraceAppend(env, Files(a), Files(b[..k]));
  }

  /** The one-step plan of a file: its step is its only file, and the walk of
      it fails at step 0 exactly when the file's calls do not all succeed. */
  lemma {:induction false} OneFileStep(env: Env, p: PlannedFile)
    ensures Files([MakeFile(p)]) == [p]
    ensures Trace(env, [p]) == FileTrace(env, p)
    ensures FirstFailing(env, [MakeFile(p)]) == if FileOk(env, p) then 1 else 0
    ensures [MakeFile(p)][..0] == [] && Files([]) == [] && Trace(env, []) == []
  {
    var one := [MakeFile(p)];
    assert one[1..] == [];
    assert [p][1..] == [];
    assert FileTrace(env, p) + [] == FileTrace(env, p);
  }

  /** A step's first failing call is unique, so the plan fixes the error. */
  lemma BlamesUnique(env: Env, e1: WalkError, e2: WalkError, s: Step)
    requires Blames(env, e1, s) && Blames(env, e2, s)
    ensures e1 == e2
  {
  }

  /** Any two outcomes that follow the same plan are the same outcome. */
  lemma {:induction false} FollowsPlanDetermines(env: Env, o1: Outcome, o2: Outcome, plan: seq<Step>)
    requires FollowsPlan(env, o1, plan) && FollowsPlan(env, o2, plan)
    ensures o1 == o2
  {
    var k := FirstFailing(env, plan);
    if k < |plan| {
      BlamesUnique(env, o1.error.value, o2.error.value, plan[k]);
    }
  }

  /** The effects of a walk that follows a plan are a prefix of the plan's
      full trace. */
  lemma {:induction false} FollowsPlanPrefix(env: Env, o: Outcome, plan: seq<Step>)
    requires FollowsPlan(env, o, plan)
    ensures IsPrefix(o.effects, Trace(env, Files(plan)))
  {
    var k := FirstFailing(env, plan);
    if k < |plan| {
      var s := plan[k];
      TraceAround(env, plan, k);
      PartialIsPrefix(env, s);
      PrefixInMiddle(Trace(env, Files(plan[..k])), Trace(env, Files([s])), Trace(env, Files(plan[k + 1..])), Partial(env, s));
    }
  }

  lemma AssociateEffects(x: seq<Effect>, y: seq<Effect>, z: seq<Effect>)
    ensures x + (y + z) == (x + y) + z
  {
  }

  lemma PrefixInMiddle(t: seq<Effect>, h: seq<Effect>, r: seq<Effect>, w: seq<Effect>)
    requires |w| <= |h| && h[..|w|] == w
    ensures IsPrefix(t + w, t + (h + r))
  {
    assert (t + (h + r))[..|t + w|] == t + w;
  }

  /** The trace of a plan splits around any one of its steps. */
  lemma {:induction false} TraceAround(env: Env, plan: seq<Step>, k: nat)
    requires k < |plan|
    ensures Trace(env, Files(plan)) ==
      Trace(env, Files(plan[..k])) + (Trace(env, Files([plan[k]])) + Trace(env, Files(plan[k + 1..])))
  {
    var s := plan[k];
    assert plan == plan[..k] + ([s] + plan[k + 1..]);
    FilesAppend(plan[..k], [s] + plan[k + 1..]);
    FilesAppend([s], plan[k + 1..]);
    var before, here, after := Files(plan[..k]), Files([s]), Files(plan[k + 1..]);
    TraceAppend(env, before, here + after);
    TraceAppend(env, here, after);
  }

  /** What a failing step leaves behind is the start of what it does when it
      succeeds. */
  lemma {:induction false} PartialIsPrefix(env: Env, s: Step)
    ensures |Partial(env, s)| <= |Trace(env, Files([s]))|
    ensures Trace(env, Files([s]))[..|Partial(env, s)|] == Partial(env, s)
  {
    assert [s][1..] == [];
    match s
    case ListDir(_) =>
    case MakeFile(p) =>
      OneFileStep(env, p);
  }

  /** Every file leaf is planned exactly once. */
  lemma {:induction false} PlanCoversFiles(folder: string, src: string, dest: string, entries: seq<Node>)
    ensures |Files(Plan(folder, src, dest, entries))| == FileCount(entries)
    decreases entries, 1
  {
    var head := [ListDir(src)];
    assert Files(head) == [] by {
      assert head[1..] == [];
    }
    FilesAppend(head, PlanEntries(folder, src, dest, entries));
    EntriesCoverFiles(folder, src, dest, entries);
  }

  lemma {:induction false} EntriesCoverFiles(folder: string, src: string, dest: string, entries: seq<Node>)
    ensures |Files(PlanEntries(folder, src, dest, entries))| == FileCount(entries)
    decreases entries, 0
  {
    if entries != [] {
      FilesAppend(PlanNode(folder, src, dest, entries[0]), PlanEntries(folder, src, dest, entries[1..]));
      NodeCoversFiles(folder, src, dest, entries[0]);
      EntriesCoverFiles(folder, src, dest, entries[1..]);
    }
  }

  lemma {:induction false} NodeCoversFiles(folder: string, src: string, dest: string, e: Node)
    ensures |Files(PlanNode(folder, src, dest, e))| == NodeFileCount(e)
    decreases e, 2
  {
    match e
    case File(name, content) =>
      var one := PlanNode(folder, src, dest, e);
      assert one[1..] == [];
    case Dir(name, children) =>
      PlanCoversFiles(folder, JoinPath(src, name), JoinPath(dest, DestName(name, folder)), children);
  }

  /** In a trace every directory made is the parent of the file written next. */
  lemma {:induction false} TraceMadeThenWrote(env: Env, files: seq<PlannedFile>)
    ensures forall i :: 0 <= i < |Trace(env, files)| && Trace(env, files)[i].Made? ==>
      i + 1 < |Trace(env, files)| && Trace(env, files)[i + 1].Wrote?
      && SplitPath(Trace(env, files)[i + 1].path).0 == Trace(env, files)[i].dir
    decreases |files|
  {
    if files != [] {
      var f := FileTrace(env, files[0]);
      var r := Trace(env, files[1..]);
      var t := Trace(env, files);
      assert t == f + r;
      TraceMadeThenWrote(env, files[1..]);
      forall i | 0 <= i < |t| && t[i].Made?
        ensures i + 1 < |t| && t[i + 1].Wrote? && SplitPath(t[i + 1].path).0 == t[i].dir
      {
        if i < |f| {
          assert f[|f| - 1].Wrote?;
          assert i == 0 && |f| == 2;
          assert t[1] == f[1];
        } else {
          assert t[i] == r[i - |f|];
          assert t[i + 1] == r[i + 1 - |f|];
        }
      }
    }
  }

  // ----------------------------------------------------------------------
  // Facts about the walk
  // ----------------------------------------------------------------------

  /** The walk succeeds exactly when every listing and every call for every
      file succeeds. */
  lemma {:induction false} WalkSucceedsExactly(env: Env, src: string, dest: string, entries: seq<Node>)
    ensures WalkAndCreate(env, src, dest, entries).error.None?
      <==> AllStepsOk(env, Plan(env.folder, src, dest, entries))
  {
    var plan := Plan(env.folder, src, dest, entries);
    var k := FirstFailing(env, plan);
    if k < |plan| {
      assert !StepOk(env, plan[k]);
    }
  }

  /** The walk never leaves an empty directory behind once it succeeds: each
      directory it makes receives the file written right after it, and a
      directory made without a file can only be the walk's last effect. */
  lemma {:induction false} MadeDirsReceiveFiles(env: Env, src: string, dest: string, entries: seq<Node>)
    ensures var o := WalkAndCreate(env, src, dest, entries);
      forall i :: 0 <= i < |o.effects| && o.effects[i].Made? ==>
        (o.error.None? ==> i + 1 < |o.effects|)
        && (i + 1 < |o.effects| ==>
              o.effects[i + 1].Wrote? && SplitPath(o.effects[i + 1].path).0 == o.effects[i].dir)
  {
    var o := WalkAndCreate(env, src, dest, entries);
    var plan := Plan(env.folder, src, dest, entries);
    FollowsPlanPrefix(env, o, plan);
    TraceMadeThenWrote(env, Files(plan));
    var t := Trace(env, Files(plan));
    forall i | 0 <= i < |o.effects| && o.effects[i].Made?
      ensures (o.error.None? ==> i + 1 < |o.effects|)
      ensures i + 1 < |o.effects| ==>
        o.effects[i + 1].Wrote? && SplitPath(o.effects[i + 1].path).0 == o.effects[i].dir
    {
      assert o.effects[i] == t[i];
      if i + 1 < |o.effects| {
        assert o.effects[i + 1] == t[i + 1];
      }
    }
  }

  /** A walk over a tree without files changes nothing on disk. */
  lemma {:induction false} NoFilesNoEffects(env: Env, src: string, dest: string, entries: seq<Node>)
    requires FileCount(entries) == 0
    ensures WalkAndCreate(env, src, dest, entries).effects == []
  {
    var plan := Plan(env.folder, src, dest, entries);
    PlanCoversFiles(env.folder, src, dest, entries);
    FollowsPlanPrefix(env, WalkAndCreate(env, src, dest, entries), plan);
  }

  /** A successful walk writes exactly one file per file leaf. */
  lemma {:induction false} SuccessWritesEveryFile(env: Env, src: string, dest: string, entries: seq<Node>)
    requires WalkAndCreate(env, src, dest, entries).error.None?
    ensures NumWrites(WalkAndCreate(env, src, dest, entries).effects) == FileCount(entries)
  {
    var plan := Plan(env.folder, src, dest, entries);
    PlanCoversFiles(env.folder, src, dest, entries);
    NumWritesTrace(env, Files(plan));
  }

  // ----------------------------------------------------------------------
  // Where `.tmpl` is deleted
  // ----------------------------------------------------------------------

  /** Under a destination directory without `.tmpl`, a file lands in that
      directory under its (renamed) name with `.tmpl` deleted. */
  lemma {:induction false} FileDestInDirectory(dest: string, name: string, folder: string)
    requires !Occurs(dest, TemplateSuffix)
    ensures FileDest(dest, name, folder) == JoinPath(dest, DeleteAll(DestName(name, folder), TemplateSuffix))
  {
  }

  /** A worked example: the template `main.go.tmpl` in directory `x` is
      written as `x/main.go`. The literals come in through parameters so
      that Dafny does not evaluate the recursive functions on them. */
  lemma ExampleFileDest(dest: string, name: string, folder: string)
    requires dest == "x" && name == "main.go.tmpl"
    ensures FileDest(dest, name, folder) == "x/main.go"
  {
    assert DestName(name, folder) == name;
    ExampleDeletion(name);
  }

  lemma ExampleDeletion(name: string)
    requires name == "main.go.tmpl"
    ensures DeleteAll(name, TemplateSuffix) == "main.go"
  {
    forall j | 0 <= j < 7
      ensures !OccursAt(name, TemplateSuffix, j)
    {
      assert name[j..j + 5][0] == name[j];
      if j == 4 {
        assert name[j..j + 5][1] == 'g';
      }
    }
    assert name[7..12] == TemplateSuffix;
    DeleteAllFirst(name, TemplateSuffix, 7);
    assert name[12..] == [];
  }

  /** Deletion is a single pass: removing the inner `.tmpl` of `.t.tmplmpl`
      joins a new `.tmpl`, which stays. */
  lemma ExampleSinglePass(s: string)
    requires s == ".t.tmplmpl"
    ensures DeleteAll(s, TemplateSuffix) == ".tmpl"
  {
    forall j | 0 <= j < 2
      ensures !OccursAt(s, TemplateSuffix, j)
    {
      if j == 0 {
        assert s[j..j + 5][2] == '.' != TemplateSuffix[2];
      } else {
        assert s[j..j + 5][0] == 't' != TemplateSuffix[0];
      }
    }
    assert s[2..7] == TemplateSuffix;
    DeleteAllFirst(s, TemplateSuffix, 2);
    assert s[7..] == "mpl";
  }
}
