/** The `TextTool` plugin (main.py:140-284): the `generate` command, its task
    queue and worker, and `_process_and_send`, which renders one image per
    token and sends the lone image or an archive of all of them. */
module TextTool {
  import opened Common
  import opened PyStr
  import opened ParamParser
  import opened ContentTokenizer
  import opened FontResolver
  import opened GlyphRenderer

  /** What a job runs against on the host: the catalog read from fonts.json,
      whether PIL loads a font file at a size, and PIL's measurements. */
  datatype Env = Env(catalog: map<string, string>, loads: FontLoader, metrics: Metrics)

  /** A queued `(event, params, tokens)` triple; of the event only the
      sender's id is used. */
  datatype Job = Job(sender: string, params: map<string, Value>, tokens: seq<string>)

  /** One image file written into the job's folder. */
  datatype Output = Output(name: string, image: Image)

  /** What `_process_and_send` sends back: the lone image, or the archive of
      the whole folder (also when it is empty). */
  datatype Delivery = Single(file: Output) | Archive(files: seq<Output>)

  /** The files a delivery carries. */
  function Files(d: Delivery): seq<Output> {
    if d.Single? then [d.file] else d.files
  }

  /** The sending step of `_process_and_send`: a lone image is sent as it
      is, anything else (none included) as the archive of them all. */
  function Deliver(outputs: seq<Output>): (d: Delivery)
    ensures d.Single? <==> |outputs| == 1
    ensures Files(d) == outputs
  {
    if |outputs| == 1 then Single(outputs[0]) else Archive(outputs)
  }

  // ------------------------------------------------------------------ names

  /** `f"{uid}_{ts}"` with `ts = int(time.time())`. */
  function FolderName(sender: string, now: nat): string {
    sender + "_" + Decimal(now)
  }

  /** `f"{folder.name}_{i:03d}.png"`: the folder name, an underscore, the
      index in at least three zero-padded digits, and the extension. */
  function ImageName(folder: string, i: nat): string {
    folder + "_" + ZeroPadded(i, 3) + ".png"
  }

  /** The names the files of a job's folder get, by position. */
  function FileNamer(folder: string): nat -> string {
    (i: nat) => ImageName(folder, i)
  }

  /** An image name is the folder name, an underscore, at least three
      digits that read back as the index, and the extension. */
  lemma ImageNameIndex(folder: string, i: nat)
    ensures var name := ImageName(folder, i);
      && |name| >= |folder| + 8
      && name[..|folder| + 1] == folder + "_"
      && name[|name| - 4..] == ".png"
      && var digits := name[|folder| + 1..|name| - 4];
         && |digits| >= 3
         && (forall k :: 0 <= k < |digits| ==> IsDigit(digits[k]))
         && DigitsValue(digits) == i
  {
    var name := ImageName(folder, i);
    assert name[|folder| + 1..|name| - 4] == ZeroPadded(i, 3);
    ZeroPaddedValue(i, 3);
  }

  /** Distinct indices give distinct image names, so no image of a job
      overwrites another. */
  lemma ImageNamesDistinct(folder: string, i: nat, j: nat)
    requires i != j
    ensures ImageName(folder, i) != ImageName(folder, j)
  {
    ImageNameIndex(folder, i);
    ImageNameIndex(folder, j);
  }

  // ----------------------------------------------------------------- a job

  /** The images of `tokens`, image i under `name(i)`: the loop of
      `_process_and_send`, with `render` the call it makes for each token.
      The first failure ends the job. */
  function RenderTokens(render: string -> Result<Image>, name: nat -> string, tokens: seq<string>)
    : Result<seq<Output>>
  {
    if tokens == [] then Ok([])
    else
      var n := |tokens| - 1;
      var previous :- RenderTokens(render, name, tokens[..n]);
      var image :- render(tokens[n]);
      Ok(previous + [Output(name(n), image)])
  }

  /** One call of the loop: bind the options, then render the token. */
  function RenderToken(env: Env, fontPath: string, params: map<string, Value>, token: string): Result<Image> {
    var args :- Bind(params);
    Render(token, fontPath, None, args, env.loads, env.metrics)
  }

  /** The call the loop makes for each token; every call binds the same
      options. */
  function TokenRenderer(env: Env, fontPath: string, params: map<string, Value>): string -> Result<Image> {
    token => RenderToken(env, fontPath, params, token)
  }

  /** The loop succeeds exactly when every token renders; then there is one
      image per token, in order, named by its index. */
  lemma RenderTokensOutputs(render: string -> Result<Image>, name: nat -> string, tokens: seq<string>)
    ensures var r := RenderTokens(render, name, tokens);
      r.Ok? <==> forall i :: 0 <= i < |tokens| ==> render(tokens[i]).Ok?
    ensures var r := RenderTokens(render, name, tokens);
      r.Ok? ==>
        && |r.value| == |tokens|
        && forall i :: 0 <= i < |tokens| ==> r.value[i] == Output(name(i), render(tokens[i]).value)
  {
    RenderTokensSucceed(render, name, tokens);
    if RenderTokens(render, name, tokens).Ok? {
      RenderTokensValues(render, name, tokens);
    }
  }

  lemma {:induction false} RenderTokensSucceed(render: string -> Result<Image>, name: nat -> string,
                                               tokens: seq<string>)
    ensures RenderTokens(render, name, tokens).Ok? <==> forall i :: 0 <= i < |tokens| ==> render(tokens[i]).Ok?
  {
    if tokens != [] {
      var n := |tokens| - 1;
      var front := tokens[..n];
      RenderTokensSucceed(render, name, front);
      assert RenderTokens(render, name, tokens).Ok?
        <==> RenderTokens(render, name, front).Ok? && render(tokens[n]).Ok?;
      assert forall i :: 0 <= i < n ==> front[i] == tokens[i];
    }
  }

  lemma {:induction false} RenderTokensValues(render: string -> Result<Image>, name: nat -> string,
                                              tokens: seq<string>)
    requires RenderTokens(render, name, tokens).Ok?
    ensures var outputs := RenderTokens(render, name, tokens).value;
      && |outputs| == |tokens|
      && forall i :: 0 <= i < |tokens| ==>
           render(tokens[i]).Ok? && outputs[i] == Output(name(i), render(tokens[i]).value)
  {
    if tokens != [] {
      var n := |tokens| - 1;
      var front := tokens[..n];
      var previous := RenderTokens(render, name, front).value;
      RenderTokensValues(render, name, front);
      var outputs := RenderTokens(render, name, tokens).value;
      assert outputs == previous + [Output(name(n), render(tokens[n]).value)];
      forall i | 0 <= i < n
        ensures render(tokens[i]).Ok? && outputs[i] == Output(name(i), render(tokens[i]).value)
      {
        assert outputs[i] == previous[i] && front[i] == tokens[i];
      }
    }
  }

  /** Once a prefix of the tokens fails, the whole loop fails the same way. */
  lemma {:induction false} RenderTokensErrPersists(render: string -> Result<Image>, name: nat -> string,
                                                   tokens: seq<string>, j: nat)
    requires j <= |tokens|
    requires RenderTokens(render, name, tokens[..j]).Err?
    ensures RenderTokens(render, name, tokens) == RenderTokens(render, name, tokens[..j])
    decreases |tokens| - j
  {
    if j < |tokens| {
      assert tokens[..j + 1][..j] == tokens[..j];
      RenderTokensErrPersists(render, name, tokens, j + 1);
    } else {
      assert tokens[..j] == tokens;
    }
  }

  /** The loop of `_process_and_send`: bind the options and render each
      token in turn, stopping at the first failure. */
  method RenderEach(env: Env, fontPath: string, defaultFontPath: string, params: map<string, Value>,
                    folder: string, tokens: seq<string>)
    returns (r: Result<seq<Output>>)
    ensures r == RenderTokens(TokenRenderer(env, fontPath, params), FileNamer(folder), tokens)
  {
    var render := TokenRenderer(env, fontPath, params);
    var name := FileNamer(folder);
    var outputs: seq<Output> := [];
    for i := 0 to |tokens|
      invariant RenderTokens(render, name, tokens[..i]) == Ok(outputs)
    {
      assert tokens[..i + 1][..i] == tokens[..i];
      var args := Bind(params);
      if args.Err? {
        assert render(tokens[i]) == Err(args.error);
        RenderTokensErrPersists(render, name, tokens, i + 1);
        return Err(args.error);
      }
      var image := RenderText(tokens[i], fontPath, defaultFontPath, args.value, None, env.loads, env.metrics);
      assert image == render(tokens[i]);
      if image.Err? {
        RenderTokensErrPersists(render, name, tokens, i + 1);
        return Err(image.error);
      }
      assert name(i) == ImageName(folder, i);
      outputs := outputs + [Output(ImageName(folder, i), image.value)];
    }
    assert tokens[..|tokens|] == tokens;
    r := Ok(outputs);
  }

  /** The font a job asks for: `params.pop("font", "default")`. */
  function FontName(params: map<string, Value>): Value {
    if "font" in params then params["font"] else DefaultName
  }

  /** `_process_and_send`: resolve the font, resolve "default" again unless
      that was the name, render every token, and deliver the single image
      or the archive. */
  function ProcessJob(env: Env, dataPath: string, job: Job, now: nat): Result<Delivery> {
    var fontName := FontName(job.params);
    var fontPath :- ResolveFont(env.catalog, dataPath, env.loads, fontName);
    var defaultFontPath :-
      if fontName != DefaultName then ResolveFont(env.catalog, dataPath, env.loads, DefaultName)
      else Ok(fontPath);
    var outputs :- RenderTokens(TokenRenderer(env, fontPath, job.params - {"font"}), FileNamer(FolderName(job.sender, now)),
                                job.tokens);
    Ok(Deliver(outputs))
  }

  /** A finished job delivers one image per token under pairwise distinct
      names, as a single file exactly when there is one token; image i is
      what rendering token i with the resolved font and the job's options
      (less "font") gives. */
  lemma ProcessJobDelivers(env: Env, dataPath: string, job: Job, now: nat)
    requires ProcessJob(env, dataPath, job, now).Ok?
    ensures ResolveFont(env.catalog, dataPath, env.loads, FontName(job.params)).Ok?
    ensures var d := ProcessJob(env, dataPath, job, now).value;
      var files := Files(d);
      var fontPath := ResolveFont(env.catalog, dataPath, env.loads, FontName(job.params)).value;
      && (d.Single? <==> |job.tokens| == 1)
      && |files| == |job.tokens|
      && (forall i :: 0 <= i < |files| ==>
            && files[i].name == ImageName(FolderName(job.sender, now), i)
            && RenderToken(env, fontPath, job.params - {"font"}, job.tokens[i]) == Ok(files[i].image))
      && (forall i, j :: 0 <= i < j < |files| ==> files[i].name != files[j].name)
  {
    var fontPath := ResolveFont(env.catalog, dataPath, env.loads, FontName(job.params)).value;
    var folder := FolderName(job.sender, now);
    var render := TokenRenderer(env, fontPath, job.params - {"font"});
    var outputs := RenderTokens(render, FileNamer(folder), job.tokens).value;
    assert ProcessJob(env, dataPath, job, now).value == Deliver(outputs);
    assert Files(ProcessJob(env, dataPath, job, now).value) == outputs;
    RenderTokensValues(render, FileNamer(folder), job.tokens);
    OutputNamesDistinct(folder, outputs);
  }

  /** Outputs named by their position never share a name. */
  lemma OutputNamesDistinct(folder: string, outputs: seq<Output>)
    requires forall i :: 0 <= i < |outputs| ==> outputs[i].name == ImageName(folder, i)
    ensures forall i, j :: 0 <= i < j < |outputs| ==> outputs[i].name != outputs[j].name
  {
    forall i, j | 0 <= i < j < |outputs|
      ensures outputs[i].name != outputs[j].name
    {
      ImageNamesDistinct(folder, i, j);
    }
  }

  /** A job fails when the "default" entry is unusable even though the font
      it names resolves: the second resolution is not needed for rendering
      but its error escapes. */
  lemma DefaultMustResolve(env: Env, dataPath: string, job: Job, now: nat)
    requires FontName(job.params) != DefaultName
    requires Usable(env.catalog, dataPath, env.loads, FontName(job.params))
    requires !Usable(env.catalog, dataPath, env.loads, DefaultName)
    ensures ResolveFont(env.catalog, dataPath, env.loads, FontName(job.params)).Ok?
    ensures ProcessJob(env, dataPath, job, now) == Err(FontUnavailable)
  {
  }

  /** A job without tokens renders nothing, so its options are never
      checked, and it delivers an empty archive once the fonts resolve. */
  lemma EmptyJobSendsEmptyArchive(env: Env, dataPath: string, job: Job, now: nat)
    requires job.tokens == []
    requires Usable(env.catalog, dataPath, env.loads, DefaultName)
    ensures ProcessJob(env, dataPath, job, now) == Ok(Archive([]))
  {
  }

  // -------------------------------------------------------------- admission

  /** The decision `generate` takes for a parsed job. `load` is the message's
      `qsize() / max_task` after the job is added. */
  datatype Admission = RunInline | Reject | Enqueue(load: real)

  /** The queue never grows past `max_task` (and stays empty when that is not
      positive). */
  predicate Bounded(queue: seq<Job>, maxTask: int) {
    queue == [] || |queue| <= maxTask
  }

  /** Admission (main.py:221-230): one token runs at once; otherwise a full
      queue rejects the job, and a queue with room appends it at the back. */
  function Admit(queue: seq<Job>, maxTask: int, job: Job): (r: (seq<Job>, Admission))
    ensures |job.tokens| == 1 ==> r == (queue, RunInline)
    ensures |job.tokens| != 1 && |queue| >= maxTask ==> r == (queue, Reject)
    ensures |job.tokens| != 1 && |queue| < maxTask ==>
      r.0 == queue + [job] && r.1.Enqueue? && 0.0 < r.1.load <= 1.0
  {
    if |job.tokens| == 1 then (queue, RunInline)
    else if |queue| >= maxTask then (queue, Reject)
    else (queue + [job], Enqueue((|queue| + 1) as real / maxTask as real))
  }

  /** Admission keeps the queue bounded. */
  lemma AdmitKeepsBound(queue: seq<Job>, maxTask: int, job: Job)
    requires Bounded(queue, maxTask)
    ensures Bounded(Admit(queue, maxTask, job).0, maxTask)
  {
  }

  /** The queue after admitting `jobs` one after another with no worker
      running. */
  function AdmitAll(queue: seq<Job>, maxTask: int, jobs: seq<Job>): seq<Job> {
    if jobs == [] then queue
    else
      var n := |jobs| - 1;
      Admit(AdmitAll(queue, maxTask, jobs[..n]), maxTask, jobs[n]).0
  }

  function Min(a: int, b: int): int {
    if a <= b then a else b
  }

  /** Multi-image jobs arriving at a queue with room are kept in arrival
      order up to the capacity, and every later one is turned away. */
  lemma {:induction false} AdmitAllFillsToCapacity(queue: seq<Job>, maxTask: int, jobs: seq<Job>)
    requires forall i :: 0 <= i < |jobs| ==> |jobs[i].tokens| != 1
    requires |queue| <= maxTask
    ensures AdmitAll(queue, maxTask, jobs) == queue + jobs[..Min(|jobs|, maxTask - |queue|)]
  {
    if jobs != [] {
      var n := |jobs| - 1;
      AdmitAllFillsToCapacity(queue, maxTask, jobs[..n]);
      assert jobs[..n][..Min(n, maxTask - |queue|)] == jobs[..Min(n, maxTask - |queue|)];
      if n < maxTask - |queue| {
        assert jobs[..n + 1] == jobs[..n] + [jobs[n]];
      }
    }
  }

  // ---------------------------------------------------------------- command

  const Prefix := "texttool generate"

  /** `s.startswith(p)` */
  predicate StartsWith(s: string, p: string)
    ensures StartsWith(s, p) ==> |p| <= |s|
  {
    |s| >= |p| && s[..|p|] == p
  }

  /** `event.message_str.strip()` with the command prefix and the blank after
      it removed. */
  function CommandText(message: string): (raw: string)
    ensures raw == [] || (!IsSpace(raw[0]) && !IsSpace(raw[|raw| - 1]))
  {
    var raw := Strip(message);
    if StartsWith(raw, Prefix) then
      var rest := raw[|Prefix|..];
      Strip(rest)
    else raw
  }

  /** The two cases of the command text: with the command prefix the rest
      after it, stripped; without it the whole stripped message. */
  lemma CommandTextCases(message: string)
    ensures StartsWith(Strip(message), Prefix) ==>
              CommandText(message) == Strip(Strip(message)[|Prefix|..])
    ensures !StartsWith(Strip(message), Prefix) ==> CommandText(message) == Strip(message)
  {
  }

  /** The split mode `params.pop("mode", "single")` yields. A value that is
      not a string equals none of the mode names, like "single". */
  function ModeName(params: map<string, Value>): string {
    if "mode" in params && params["mode"].StrVal? then params["mode"].s else "single"
  }

  /** A mode given as a number keeps the whole stripped content. */
  lemma NumericModeKeepsWhole(content: string, params: map<string, Value>)
    requires "mode" in params && !params["mode"].StrVal?
    ensures SplitContent(content, ModeName(params)) == [Strip(content)]
  {
  }

  /** What `generate` answers. */
  datatype Reply =
    | NoContent                // "未提供内容"
    | Failed(error: Error)     // an exception raised by the handler
    | Sent(delivery: Delivery) // a one-image job, run at once
    | QueueFull                // "任务队列已满，请稍后再试"
    | Queued(load: real)       // "已加入任务队列…", with qsize()/max_task

  /** The job `generate` builds from a parsed directive. */
  function JobOf(sender: string, d: Directive): Job {
    Job(sender, d.params - {"mode"}, SplitContent(d.content, ModeName(d.params)))
  }

  /** `generate` from the queue's point of view: the new queue and the
      reply. */
  function Submit(queue: seq<Job>, maxTask: int, dataPath: string, env: Env, message: string,
                  sender: string, now: nat): (seq<Job>, Reply)
  {
    var raw := CommandText(message);
    if raw == [] then (queue, NoContent)
    else match ParseDirective(raw)
      case Err(e) => (queue, Failed(e))
      case Ok(d) => Dispatch(queue, maxTask, dataPath, env, JobOf(sender, d), now)
  }

  /** What `generate` does with the job it built: admit it, and run it at
      once when admission says so. */
  function Dispatch(queue: seq<Job>, maxTask: int, dataPath: string, env: Env, job: Job, now: nat)
    : (seq<Job>, Reply)
  {
    var admitted := Admit(queue, maxTask, job);
    match admitted.1
    case RunInline => (queue, Outcome(ProcessJob(env, dataPath, job, now)))
    case Reject => (queue, QueueFull)
    case Enqueue(load) => (admitted.0, Queued(load))
  }

  /** The reply to a job run at once. */
  function Outcome(r: Result<Delivery>): Reply {
    match r
    case Ok(delivery) => Sent(delivery)
    case Err(e) => Failed(e)
  }

  /** A job built by `generate` carries only options `render_text` accepts,
      once `_process_and_send` has taken out the font. */
  lemma JobOptionsAreRenderOptions(sender: string, raw: string)
    requires ParseDirective(raw).Ok?
    ensures (JobOf(sender, ParseDirective(raw).value).params - {"font"}).Keys <= AllowedParams
  {
    DirectiveKeysRecognized(raw);
  }

  /** `generate` changes the queue only by appending the job it built, and
      only when the reply says so. */
  lemma SubmitOnlyAppends(queue: seq<Job>, maxTask: int, dataPath: string, env: Env, message: string,
                          sender: string, now: nat)
    ensures var (q, reply) := Submit(queue, maxTask, dataPath, env, message, sender, now);
      && (Bounded(queue, maxTask) ==> Bounded(q, maxTask))
      && (reply.Queued? <==> q != queue)
      && (reply.Queued? ==>
            && ParseDirective(CommandText(message)).Ok?
            && var job := JobOf(sender, ParseDirective(CommandText(message)).value);
               q == queue + [job] && |job.tokens| != 1 && |queue| < maxTask)
  {
    var raw := CommandText(message);
    if raw != [] {
      var parsed := ParseDirective(raw);
      if parsed.Ok? {
        var job := JobOf(sender, parsed.value);
        assert Submit(queue, maxTask, dataPath, env, message, sender, now)
          == Dispatch(queue, maxTask, dataPath, env, job, now);
        DispatchOnlyAppends(queue, maxTask, dataPath, env, job, now);
      } else {
        assert Submit(queue, maxTask, dataPath, env, message, sender, now) == (queue, Failed(parsed.error));
      }
    }
  }

  lemma DispatchOnlyAppends(queue: seq<Job>, maxTask: int, dataPath: string, env: Env, job: Job, now: nat)
    ensures var (q, reply) := Dispatch(queue, maxTask, dataPath, env, job, now);
      && (Bounded(queue, maxTask) ==> Bounded(q, maxTask))
      && (reply.Queued? <==> q != queue)
      && (reply.Queued? ==> q == queue + [job] && |job.tokens| != 1 && |queue| < maxTask)
  {
    if Bounded(queue, maxTask) {
      AdmitKeepsBound(queue, maxTask, job);
    }
  }

  /** A command whose content splits into no tokens (a blank content in
      `char` mode, say) is not refused: it is queued like a multi-image job. */
  lemma NoTokensAreQueued(queue: seq<Job>, maxTask: int, dataPath: string, env: Env, message: string,
                          sender: string, now: nat)
    requires CommandText(message) != [] && ParseDirective(CommandText(message)).Ok?
    requires JobOf(sender, ParseDirective(CommandText(message)).value).tokens == []
    requires |queue| < maxTask
    ensures var (q, reply) := Submit(queue, maxTask, dataPath, env, message, sender, now);
      && q == queue + [JobOf(sender, ParseDirective(CommandText(message)).value)]
      && reply == Queued((|queue| + 1) as real / maxTask as real)
  {
    var job := JobOf(sender, ParseDirective(CommandText(message)).value);
    assert Submit(queue, maxTask, dataPath, env, message, sender, now)
      == Dispatch(queue, maxTask, dataPath, env, job, now);
    assert Admit(queue, maxTask, job).1 == Enqueue((|queue| + 1) as real / maxTask as real);
  }

  // ----------------------------------------------------------------- plugin

  /** `limit.get(key, default)` of the plugin's configuration. */
  function Limit(limits: map<string, int>, key: string, default: int): int {
    if key in limits then limits[key] else default
  }

  class TextTool {
    const dataPath: string
    const maxTask: int
    /** Read from the configuration and never enforced. */
    const maxCharsPerTask: int
    /** Read from the configuration and never enforced. */
    const maxImagesPerTask: int
    /** The asyncio queue, front first. */
    var queue: seq<Job>

    predicate Valid()
      reads this
    {
      Bounded(queue, maxTask)
    }

    constructor(dataPath: string, limits: map<string, int>)
      ensures this.dataPath == dataPath
      ensures maxTask == Limit(limits, "max_task", 20)
      ensures maxCharsPerTask == Limit(limits, "max_chars_per_task", 20000)
      ensures maxImagesPerTask == Limit(limits, "max_images_per_task", 1000)
      ensures queue == [] && Valid()
    {
      this.dataPath := dataPath;
      maxTask := Limit(limits, "max_task", 20);
      maxCharsPerTask := Limit(limits, "max_chars_per_task", 20000);
      maxImagesPerTask := Limit(limits, "max_images_per_task", 1000);
      queue := [];
    }

    /** `_process_and_send` for one job. */
    method ProcessAndSend(env: Env, job: Job, now: nat) returns (r: Result<Delivery>)
      ensures r == ProcessJob(env, dataPath, job, now)
    {
      var fontName := FontName(job.params);
      var fontPath :- ResolveFont(env.catalog, dataPath, env.loads, fontName);
      var defaultFontPath := fontPath;
      if fontName != DefaultName {
        defaultFontPath :- ResolveFont(env.catalog, dataPath, env.loads, DefaultName);
      }
      var outputs :- RenderEach(env, fontPath, defaultFontPath, job.params - {"font"},
                                FolderName(job.sender, now), job.tokens);
      r := Ok(Deliver(outputs));
    }

    /** The `generate` command. */
    method Generate(message: string, sender: string, env: Env, now: nat) returns (reply: Reply)
      requires Valid()
      modifies this
      ensures Valid()
      ensures (queue, reply) == Submit(old(queue), maxTask, dataPath, env, message, sender, now)
    {
      var raw := CommandText(message);
      if raw == [] {
        return NoContent;
      }
      var parsed := ParseParams(raw);
      if parsed.Err? {
        return Failed(parsed.error);
      }
      var job := JobOf(sender, parsed.value);
      assert Submit(old(queue), maxTask, dataPath, env, message, sender, now)
        == Dispatch(old(queue), maxTask, dataPath, env, job, now);
      reply := DispatchJob(env, job, now);
    }

    /** The part of `generate` after the job is built: run it at once,
        refuse it, or put it on the queue. */
    method DispatchJob(env: Env, job: Job, now: nat) returns (reply: Reply)
      requires Valid()
      modifies this
      ensures Valid()
      ensures (queue, reply) == Dispatch(old(queue), maxTask, dataPath, env, job, now)
    {
      var admitted := Admit(queue, maxTask, job);
      if |job.tokens| == 1 {
        assert admitted.1 == RunInline;
        var r := ProcessAndSend(env, job, now);
        reply := Outcome(r);
        return;
      }
      if |queue| >= maxTask {
        assert admitted.1 == Reject;
        return QueueFull;
      }
      AdmitKeepsBound(queue, maxTask, job);
      queue := queue + [job];
      reply := Queued(|queue| as real / maxTask as real);
    }

    /** `await self.queue.get()`: the front job, or None where the worker
        would wait on an empty queue. */
    method TakeJob() returns (job: Option<Job>)
      requires Valid()
      modifies this
      ensures Valid()
      ensures old(queue) == [] ==> job == None && queue == []
      ensures old(queue) != [] ==> job == Some(old(queue)[0]) && queue == old(queue)[1..]
    {
      if queue == [] {
        return None;
      }
      job := Some(queue[0]);
      queue := queue[1..];
    }

    /** One round of `_worker`: take the front job and run it; a failure is
        what the worker reports back to the sender. */
    method WorkerStep(env: Env, now: nat) returns (outcome: Option<Result<Delivery>>)
      requires Valid()
      modifies this
      ensures Valid()
      ensures old(queue) == [] ==> outcome == None && queue == []
      ensures old(queue) != [] ==>
        queue == old(queue)[1..] && outcome == Some(ProcessJob(env, dataPath, old(queue)[0], now))
    {
      var job := TakeJob();
      if job.None? {
        return None;
      }
      var r := ProcessAndSend(env, job.value, now);
      outcome := Some(r);
    }
  }
}
