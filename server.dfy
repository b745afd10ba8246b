/** The control plane of the program supervisor (1lab/server.py), as a
    sequential state machine: one request is handled at a time, runner
    threads are represented by their stop events, and the JSON state file
    by the snapshot last written to it. */
module Server {
  import opened Wrappers
  import opened PyStr
  import OutputArchive

  /** `INTERVAL`: the interval of a fresh state and the default of
      `set_interval` when the request has no `interval` field. */
  const DefaultInterval: int := 10

  /** The content of the state file: the global interval and each
      registered program's `active` flag. */
  datatype Snapshot = Snapshot(interval: int, programs: map<string, bool>)

  /** `load_programs`: what the state file holds, or the initial state when
      there is no state file. */
  function LoadPrograms(file: Option<Snapshot>): (r: Snapshot)
    // a written snapshot is read back as written
    ensures file.Some? ==> r == file.value
    // a first start has the default interval and no program
    ensures file.None? ==> r.interval == DefaultInterval && r.programs == map[]
  {
    match file
    case Some(data) => data
    case None => Snapshot(DefaultInterval, map[])
  }

  /** The programs a startup launches a runner for. */
  function ActiveNames(programs: map<string, bool>): set<string> {
    set p | p in programs && programs[p]
  }

  /** `is_program_safe`: whether `shutil.which` resolves the first word of
      the command line, `onPath` being the commands it resolves. `None`
      where `program.split()[0]` raises `IndexError` (no word at all). */
  function IsProgramSafe(program: string, onPath: set<string>): (r: Option<bool>)
    ensures r.None? <==> AllSpace(program)
  {
    match FirstField(program)
    case None => None
    case Some(command) => Some(command in onPath)
  }

  /** Only the command word decides: the arguments and the surrounding
      whitespace play no part. */
  lemma ProgramSafeByCommand(w: string, command: string, args: string, onPath: set<string>)
    requires AllSpace(w) && command != [] && NoSpace(command)
    requires args == [] || IsSpace(args[0])
    ensures IsProgramSafe(w + command + args, onPath) == Some(command in onPath)
  {
    FirstFieldOf(w, command, args);
  }

  /** A runner's `threading.Event`. */
  class StopEvent {
    var cancelled: bool

    constructor ()
      ensures !cancelled
    {
      cancelled := false;
    }
  }

  /** An entry of `program_threads`: the runner's stop event, with the
      interval the runner was started with (the thread itself is not
      modelled). */
  datatype RunnerHandle = RunnerHandle(event: StopEvent, interval: int)

  /** The `interval` field of a request, as `json.loads` produces it. */
  datatype IntervalField =
    | Absent
    | Text(text: string)
    | Integer(n: int)
    | Float(x: real)         // a finite float
    | NotANumber             // `NaN`
    | Infinite(negative: bool) // `Infinity` or `-Infinity`
    | Boolean(b: bool)
    | OtherJson  // null, a list or an object

  /** The outcome of Python's `int(...)`. */
  datatype Conversion = Converted(value: int) | ValueError | TypeError | OverflowError

  /** `int(x)` of a finite float: truncation toward zero. */
  function Truncate(x: real): (r: int)
    ensures x >= 0.0 ==> 0 <= r && r as real <= x < r as real + 1.0
    ensures x < 0.0 ==> r <= 0 && r as real - 1.0 < x <= r as real
  {
    if x >= 0.0 then x.Floor else -((-x).Floor)
  }

  /** `int(request.get('interval', INTERVAL))`. */
  function IntervalOf(field: IntervalField): (r: Conversion)
    ensures field.Absent? ==> r == Converted(DefaultInterval)
    // ValueError comes only from text and from NaN
    ensures r.ValueError? ==> field.Text? || field.NotANumber?
    ensures r.TypeError? <==> field.OtherJson?
    ensures r.OverflowError? <==> field.Infinite?
    // numbers, booleans and an absent field always convert
    ensures field.Integer? || field.Float? || field.Boolean? ==> r.Converted?
  {
    match field
    case Absent => Converted(DefaultInterval)
    case Text(s) =>
      (match ParseInt(s)
       case Some(n) => Converted(n)
       case None => ValueError)
    case Integer(n) => Converted(n)
    case Float(x) => Converted(Truncate(x))
    case NotANumber => ValueError
    case Infinite(_) => OverflowError
    case Boolean(b) => Converted(if b then 1 else 0)
    case OtherJson => TypeError
  }

  /** Every integer, zero and negative ones included, is accepted as an
      interval when sent as its decimal text, with or without the padding
      `int()` skips. */
  lemma IntervalOfDecimalText(w: string, n: int, w': string)
    requires AllBlank(w, IntBlanks) && AllBlank(w', IntBlanks)
    ensures IntervalOf(Text(w + DecimalText(n) + w')) == Converted(n)
  {
    ParseDecimalText(w, n, w');
  }

  /** Text without a digit is refused. */
  lemma IntervalRefusesNonNumericText(s: string)
    requires forall i :: 0 <= i < |s| ==> !IsDigit(s[i])
    ensures IntervalOf(Text(s)) == ValueError
  {
    ParseRejectsWithoutDigits(s);
  }

  /** A text that begins with one of U+001C..U+001F is refused, although
      `strip()` would drop that character. */
  lemma IntervalRefusesSeparator(s: string)
    requires |s| > 0 && '\U{1C}' <= s[0] <= '\U{1F}'
    ensures IntervalOf(Text(s)) == ValueError
  {
    ParseRefusesSeparator(s);
  }

  /** A decoded request: `request.get('action')`, `request.get('program')`
      and the `interval` field. `Malformed` is a payload that is not a
      JSON object. */
  datatype Request =
    | Malformed
    | Decoded(action: Option<string>, program: Option<string>, interval: IntervalField)

  /** The actions `handle_client` knows, by the `action` field's value. */
  datatype Command =
    | AddCommand | StopCommand | ResumeCommand | SetIntervalCommand | GetOutputCommand
    | UnknownAction

  /** The `if`/`elif` chain of `handle_client` on `request.get('action')`. */
  function CommandOf(action: Option<string>): (c: Command)
    ensures c.UnknownAction? <==>
      action !in {Some("add"), Some("stop"), Some("resume"), Some("set_interval"), Some("get_output")}
  {
    match action
    case None => UnknownAction
    case Some(a) =>
      if a == "add" then AddCommand
      else if a == "stop" then StopCommand
      else if a == "resume" then ResumeCommand
      else if a == "set_interval" then SetIntervalCommand
      else if a == "get_output" then GetOutputCommand
      else UnknownAction
  }

  /** The text responses of `handle_client`, one variant per message. */
  datatype Response =
    | UnknownCommand
    | Unsafe(name: string)
    | Added(name: string)
    | AlreadyExists(name: string)
    | Stopped(name: string)
    | NotFound(program: Option<string>)
    | Resumed(name: string)
    | RunningOrMissing(program: Option<string>)
    | IntervalSet(interval: int)
    | InvalidInterval
    | Output(text: string)
    | OutputNotFound(name: string)
    | ServerError

  /** The responses of the requests that rewrite the state file. */
  predicate Writes(r: Response) {
    r.Added? || r.Stopped? || r.Resumed? || r.IntervalSet?
  }

  /** `get_output`: the artifacts of the program's output folder in name
      order, each under its delimiter line. `folders` maps a program name
      to its folder's listing, in whatever order the directory yields it. */
  method GetOutput(program: Option<string>, folders: map<string, seq<OutputArchive.Artifact>>)
    returns (r: Response)
    ensures program.None? ==> r == ServerError
    ensures program.Some? && program.value !in folders ==> r == OutputNotFound(program.value)
    ensures program.Some? && program.value in folders ==>
      r == Output(OutputArchive.Combined(OutputArchive.SortByName(folders[program.value])))
  {
    if program.None? {
      // os.path.join(OUTPUT_DIR, None) raises TypeError
      r := ServerError;
    } else if program.value !in folders {
      r := OutputNotFound(program.value);
    } else {
      var files := OutputArchive.SortByName(folders[program.value]);
      var text := OutputArchive.Concatenate(files);
      r := Output(text);
    }
  }

  /** The wait at the end of one cycle of `run_program`: at most `interval`
      one-second sleeps, cut short as soon as the stop event is seen set.
      `setAtCheck(k)` is the state of the event at the k-th check. */
  method WaitInterval(interval: int, setAtCheck: nat -> bool) returns (sleeps: nat)
    ensures sleeps <= if interval > 0 then interval else 0
    ensures forall k :: 0 <= k < sleeps ==> !setAtCheck(k)
    ensures sleeps < interval ==> setAtCheck(sleeps)
  {
    sleeps := 0;
    while sleeps < interval
      invariant sleeps <= if interval > 0 then interval else 0
      invariant forall k :: 0 <= k < sleeps ==> !setAtCheck(k)
    {
      if setAtCheck(sleeps) {
        return;
      }
      sleeps := sleeps + 1;
    }
  }

  /** The supervisor's state: `programs_data`, `program_threads` and the
      state file. */
  class Supervisor {
    /** `programs_data['interval']` */
    var interval: int
    /** `programs_data['programs']`: each registered name and its `active` flag */
    var programs: map<string, bool>
    /** `program_threads` */
    var handles: map<string, RunnerHandle>
    /** The state file; `None` while no file has been written or loaded */
    var stateFile: Option<Snapshot>
    /** How many times the state file has been rewritten */
    var saves: nat

    function Data(): Snapshot
      reads this
    {
      Snapshot(interval, programs)
    }

    ghost function Events(): set<StopEvent>
      reads this`handles
    {
      set p | p in handles :: handles[p].event
    }

    /** A program is active exactly when it has a handle whose event is not
        set; every handle belongs to a registered program; no two handles
        share an event. */
    ghost predicate Valid()
      reads this`programs, this`handles, Events()
    {
      && handles.Keys <= programs.Keys
      && (forall p :: p in programs ==> (programs[p] <==> p in handles && !handles[p].event.cancelled))
      && (forall p, q :: p in handles && q in handles && p != q ==> handles[p].event != handles[q].event)
    }

    /** Loading the state file gives back the in-memory state. */
    predicate Persisted()
      reads this
    {
      LoadPrograms(stateFile) == Data()
    }

    /** The programs whose runner has not been told to stop. */
    ghost function Running(): set<string>
      reads this`handles, Events()
    {
      set p | p in handles && !handles[p].event.cancelled
    }

    lemma RunningIsActive()
      requires Valid()
      ensures Running() == ActiveNames(programs)
    {
    }

    /** Startup: `load_programs` followed by `start_programs`. */
    constructor Start(file: Option<Snapshot>)
      ensures Valid() && Persisted()
      ensures Data() == LoadPrograms(file) && stateFile == file && saves == 0
      ensures handles.Keys == ActiveNames(programs)
      ensures forall p :: p in handles ==> fresh(handles[p].event) && handles[p].interval == interval
    {
      var data := LoadPrograms(file);
      interval, programs := data.interval, data.programs;
      handles, stateFile, saves := map[], file, 0;
      new;
      StartPrograms();
    }

    /** `start_programs`: one runner, with the current interval, for every
        active program. It runs once, at startup, over an empty
        `program_threads`. */
    method StartPrograms()
      requires handles == map[]
      modifies this
      ensures Valid()
      ensures interval == old(interval) && programs == old(programs)
      ensures stateFile == old(stateFile) && saves == old(saves)
      ensures handles.Keys == ActiveNames(programs)
      ensures forall p :: p in handles ==> fresh(handles[p].event) && handles[p].interval == interval
    {
      var todo := programs.Keys;
      while todo != {}
        invariant todo <= programs.Keys
        invariant interval == old(interval) && programs == old(programs)
        invariant stateFile == old(stateFile) && saves == old(saves)
        invariant handles.Keys == ActiveNames(programs) - todo
        invariant forall p :: p in handles ==>
          fresh(handles[p].event) && !handles[p].event.cancelled && handles[p].interval == interval
        invariant forall p, q :: p in handles && q in handles && p != q ==> handles[p].event != handles[q].event
        decreases todo
      {
        var p :| p in todo;
        if programs[p] {
          var event := new StopEvent();
          handles := handles[p := RunnerHandle(event, interval)];
        }
        todo := todo - {p};
      }
    }

    /** `save_programs(programs_data)`: a full rewrite of the state file. */
    method Save()
      modifies this`stateFile, this`saves
      ensures stateFile == Some(Data()) && saves == old(saves) + 1
    {
      stateFile := Some(Data());
      saves := saves + 1;
    }

    /** The common tail of `add` and `resume`: mark an inactive name as
        active, save, and give it a fresh runner with the current interval
        in place of any old handle. */
    method Launch(name: string)
      requires Valid() && !(name in programs && programs[name])
      modifies this
      ensures Valid()
      ensures interval == old(interval) && programs == old(programs)[name := true]
      ensures name in handles && handles == old(handles)[name := handles[name]]
      ensures fresh(handles[name].event) && !handles[name].event.cancelled
      ensures handles[name].interval == interval
      ensures stateFile == Some(Data()) && saves == old(saves) + 1
    {
      var event := new StopEvent();
      handles := handles[name := RunnerHandle(event, interval)];
      programs := programs[name := true];
      Save();
    }

    /** `add`: register a resolvable new program as active, save, and start
        its runner with the current interval. */
    method Add(program: string, onPath: set<string>) returns (r: Response)
      requires Valid()
      modifies this
      ensures Valid() && (old(Persisted()) ==> Persisted())
      ensures Writes(r) ==> stateFile == Some(Data()) && saves == old(saves) + 1
      ensures !Writes(r) ==> unchanged(this)
      ensures forall p :: p in old(handles) ==> old(handles)[p].event.cancelled == old(handles[p].event.cancelled)
      ensures IsProgramSafe(program, onPath).None? ==> r == ServerError && unchanged(this)
      ensures IsProgramSafe(program, onPath) == Some(false) ==> r == Unsafe(program) && unchanged(this)
      ensures IsProgramSafe(program, onPath) == Some(true) && program in old(programs) ==>
        r == AlreadyExists(program) && unchanged(this)
      ensures IsProgramSafe(program, onPath) == Some(true) && program !in old(programs) ==>
        && r == Added(program)
        && interval == old(interval)
        && programs == old(programs)[program := true]
        && program in handles && handles == old(handles)[program := handles[program]]
        && fresh(handles[program].event) && !handles[program].event.cancelled
        && handles[program].interval == interval
        && stateFile == Some(Data()) && saves == old(saves) + 1
    {
      var safe := IsProgramSafe(program, onPath);
      if safe.None? {
        r := ServerError;
      } else if !safe.value {
        r := Unsafe(program);
      } else if program !in programs {
        Launch(program);
        r := Added(program);
      } else {
        r := AlreadyExists(program);
      }
    }

    /** `stop`: for any name with a handle, even one already stopped, set
        its event and clear its flag; the handle stays in place. */
    method Stop(program: Option<string>) returns (r: Response)
      requires Valid()
      modifies this, Events()
      ensures Valid() && (old(Persisted()) ==> Persisted())
      ensures Writes(r) ==> stateFile == Some(Data()) && saves == old(saves) + 1
      ensures !Writes(r) ==> unchanged(this)
      ensures interval == old(interval) && handles == old(handles) && programs.Keys == old(programs.Keys)
      ensures program.Some? && program.value in old(handles) ==>
        && r == Stopped(program.value)
        && handles[program.value].event.cancelled
        && programs == old(programs)[program.value := false]
        && stateFile == Some(Data()) && saves == old(saves) + 1
      ensures !(program.Some? && program.value in old(handles)) ==>
        r == NotFound(program) && unchanged(this)
      ensures forall p :: p in old(handles) && Some(p) != program ==>
        old(handles)[p].event.cancelled == old(handles[p].event.cancelled)
    {
      if program.Some? && program.value in handles {
        var name := program.value;
        // the invariant is what keeps `programs_data['programs'][program]`
        // from raising KeyError here
        assert name in programs;
        var event := handles[name].event;
        event.cancelled := true;
        programs := programs[name := false];
        Save();
        r := Stopped(name);
      } else {
        r := NotFound(program);
      }
    }

    /** `resume`: for a registered, inactive name, install a fresh runner
        with the current interval in place of any old handle, and set its
        flag. */
    method Resume(program: Option<string>) returns (r: Response)
      requires Valid()
      modifies this
      ensures Valid() && (old(Persisted()) ==> Persisted())
      ensures Writes(r) ==> stateFile == Some(Data()) && saves == old(saves) + 1
      ensures !Writes(r) ==> unchanged(this)
      ensures interval == old(interval)
      ensures program.Some? && program.value in old(programs) && !old(programs)[program.value] ==>
        && r == Resumed(program.value)
        && programs == old(programs)[program.value := true]
        && program.value in handles && handles == old(handles)[program.value := handles[program.value]]
        && fresh(handles[program.value].event) && !handles[program.value].event.cancelled
        && handles[program.value].interval == interval
        && stateFile == Some(Data()) && saves == old(saves) + 1
      ensures !(program.Some? && program.value in old(programs) && !old(programs)[program.value]) ==>
        r == RunningOrMissing(program) && unchanged(this)
      ensures forall p :: p in old(handles) ==> old(handles)[p].event.cancelled == old(handles[p].event.cancelled)
    {
      if program.Some? && program.value in programs && !programs[program.value] {
        Launch(program.value);
        r := Resumed(program.value);
      } else {
        r := RunningOrMissing(program);
      }
    }

    /** `programs_data['interval'] = interval` followed by a save. */
    method StoreInterval(n: int)
      requires Valid()
      modifies this`interval, this`stateFile, this`saves
      ensures Valid() && interval == n
      ensures stateFile == Some(Data()) && saves == old(saves) + 1
    {
      interval := n;
      Save();
    }

    /** `set_interval`: store whatever `int(...)` yields, zero and negative
        values included; running handles keep the interval they started
        with. */
    method SetInterval(field: IntervalField) returns (r: Response)
      requires Valid()
      modifies this
      ensures Valid() && (old(Persisted()) ==> Persisted())
      ensures Writes(r) ==> stateFile == Some(Data()) && saves == old(saves) + 1
      ensures !Writes(r) ==> unchanged(this)
      ensures programs == old(programs) && handles == old(handles)
      ensures IntervalOf(field).Converted? ==>
        && interval == IntervalOf(field).value && r == IntervalSet(interval)
        && stateFile == Some(Data()) && saves == old(saves) + 1
      ensures IntervalOf(field).ValueError? ==> r == InvalidInterval && unchanged(this)
      ensures IntervalOf(field).TypeError? || IntervalOf(field).OverflowError? ==>
        r == ServerError && unchanged(this)
      ensures forall p :: p in old(handles) ==> old(handles)[p].event.cancelled == old(handles[p].event.cancelled)
    {
      var c := IntervalOf(field);
      match c
      case Converted(n) =>
        StoreInterval(n);
        r := IntervalSet(n);
      case ValueError =>
        r := InvalidInterval;
      case TypeError =>
        r := ServerError;
      case OverflowError =>
        r := ServerError;
    }

    /** `handle_client`: route one decoded request to its action. Every
        request that rewrites the state file leaves it equal to the
        in-memory state; every other request changes nothing. */
    method HandleRequest(req: Request, onPath: set<string>,
                         folders: map<string, seq<OutputArchive.Artifact>>)
      returns (r: Response)
      requires Valid()
      modifies this, Events()
      ensures Valid() && (old(Persisted()) ==> Persisted())
      ensures Writes(r) ==> stateFile == Some(Data()) && saves == old(saves) + 1
      ensures !Writes(r) ==> unchanged(this)
      ensures req.Malformed? ==> r == ServerError
      ensures req.Decoded? ==> match CommandOf(req.action)
        case AddCommand => r.ServerError? || r.Unsafe? || r.AlreadyExists? || r.Added?
        case StopCommand => r.Stopped? || r.NotFound?
        case ResumeCommand => r.Resumed? || r.RunningOrMissing?
        case SetIntervalCommand => r.IntervalSet? || r.InvalidInterval? || r.ServerError?
        case GetOutputCommand => r.Output? || r.OutputNotFound? || r.ServerError?
        case UnknownAction => r == UnknownCommand
      // each answer that reports a change was given by its own action, for
      // the program or value of the request, with the new state it names
      ensures r.Added? ==>
        && req.Decoded? && CommandOf(req.action).AddCommand? && req.program == Some(r.name)
        && r.name !in old(programs) && programs == old(programs)[r.name := true]
        && interval == old(interval)
        && r.name in handles && handles == old(handles)[r.name := handles[r.name]]
        && fresh(handles[r.name].event) && !handles[r.name].event.cancelled
        && handles[r.name].interval == interval
      ensures r.Stopped? ==>
        && req.Decoded? && CommandOf(req.action).StopCommand? && req.program == Some(r.name)
        && r.name in old(handles) && programs == old(programs)[r.name := false]
        && interval == old(interval) && handles == old(handles)
        && handles[r.name].event.cancelled
      ensures r.Resumed? ==>
        && req.Decoded? && CommandOf(req.action).ResumeCommand? && req.program == Some(r.name)
        && r.name in old(programs) && !old(programs)[r.name] && programs == old(programs)[r.name := true]
        && interval == old(interval)
        && r.name in handles && handles == old(handles)[r.name := handles[r.name]]
        && fresh(handles[r.name].event) && !handles[r.name].event.cancelled
        && handles[r.name].interval == interval
      ensures r.IntervalSet? ==>
        && req.Decoded? && CommandOf(req.action).SetIntervalCommand?
        && IntervalOf(req.interval) == Converted(r.interval)
        && interval == r.interval && programs == old(programs) && handles == old(handles)
      // no event is set except the one a `stop` answers for
      ensures forall p :: p in old(handles) && !(r.Stopped? && p == r.name) ==>
        old(handles)[p].event.cancelled == old(handles[p].event.cancelled)
      // the refusals and the output name the program of the request
      ensures (r.Unsafe? || r.AlreadyExists?) ==> req.Decoded? && req.program == Some(r.name)
      // and conversely, which answer each decoded request receives
      ensures req.Decoded? && CommandOf(req.action).AddCommand? && req.program.Some? ==>
        var name := req.program.value;
        && (IsProgramSafe(name, onPath) == Some(false) ==> r == Unsafe(name))
        && (IsProgramSafe(name, onPath) == Some(true) && name in old(programs) ==> r == AlreadyExists(name))
        && (IsProgramSafe(name, onPath) == Some(true) && name !in old(programs) ==> r == Added(name))
      ensures (req.Decoded? && CommandOf(req.action).AddCommand? && req.program.Some? &&
               IsProgramSafe(req.program.value, onPath).None?) ==> r == ServerError
      ensures req.Decoded? && CommandOf(req.action).StopCommand? ==>
        (r.Stopped? <==> req.program.Some? && req.program.value in old(handles))
      ensures req.Decoded? && CommandOf(req.action).ResumeCommand? ==>
        (r.Resumed? <==> req.program.Some? && req.program.value in old(programs) && !old(programs)[req.program.value])
      ensures req.Decoded? && CommandOf(req.action).SetIntervalCommand? ==>
        && (IntervalOf(req.interval).Converted? ==> r == IntervalSet(IntervalOf(req.interval).value))
        && (IntervalOf(req.interval).ValueError? ==> r == InvalidInterval)
        && (IntervalOf(req.interval).TypeError? || IntervalOf(req.interval).OverflowError? ==> r == ServerError)
      ensures req.Decoded? && CommandOf(req.action).GetOutputCommand? ==>
        (r == ServerError <==> req.program.None?)
      ensures r.OutputNotFound? ==> req.Decoded? && req.program == Some(r.name) && r.name !in folders
      ensures r.Output? ==>
        && req.Decoded? && req.program.Some? && req.program.value in folders
        && r.text == OutputArchive.Combined(OutputArchive.SortByName(folders[req.program.value]))
    {
      if req.Malformed? {
        r := ServerError;
        return;
      }
      match CommandOf(req.action)
      case AddCommand =>
        if req.program.None? {
          // None.split() raises AttributeError
          r := ServerError;
        } else {
          r := Add(req.program.value, onPath);
        }
      case StopCommand =>
        r := Stop(req.program);
      case ResumeCommand =>
        r := Resume(req.program);
      case SetIntervalCommand =>
        r := SetInterval(req.interval);
      case GetOutputCommand =>
        r := GetOutput(req.program, folders);
      case UnknownAction =>
        r := UnknownCommand;
    }

    /** `graceful_shutdown`: set every runner's event, then save the state,
        active flags unchanged. */
    method Shutdown()
      modifies this, Events()
      ensures interval == old(interval) && programs == old(programs) && handles == old(handles)
      ensures forall p :: p in handles ==> handles[p].event.cancelled
      ensures stateFile == Some(Data()) && saves == old(saves) + 1
      ensures Persisted()
    {
      var todo := handles.Keys;
      while todo != {}
        invariant todo <= handles.Keys
        invariant interval == old(interval) && programs == old(programs) && handles == old(handles)
        invariant stateFile == old(stateFile) && saves == old(saves)
        invariant forall p :: p in handles && p !in todo ==> handles[p].event.cancelled
        decreases todo
      {
        var p :| p in todo;
        var event := handles[p].event;
        event.cancelled := true;
        todo := todo - {p};
      }
      Save();
    }
  }

  /** A shutdown followed by a new start from the state file it wrote:
      every old runner was told to stop, and exactly the programs that were
      active are running again, with the same state. */
  method Restart(s: Supervisor) returns (next: Supervisor)
    modifies s, s.Events()
    ensures forall p :: p in old(s.handles) ==> old(s.handles)[p].event.cancelled
    ensures next.Valid() && next.Data() == old(s.Data())
    ensures next.Running() == ActiveNames(old(s.programs))
  {
    s.Shutdown();
    next := new Supervisor.Start(s.stateFile);
    next.RunningIsActive();
  }

  /** `stop` then `resume` of a running program leaves it with exactly one
      handle, a fresh running one. */
  method StopThenResume(s: Supervisor, name: string) returns (first: Response, second: Response)
    requires s.Valid() && name in s.handles
    modifies s, s.Events()
    ensures first == Stopped(name) && second == Resumed(name)
    ensures s.Valid() && name in s.Running() && fresh(s.handles[name].event)
    // the runner that was replaced has been told to stop
    ensures old(s.handles[name].event).cancelled
  {
    first := s.Stop(Some(name));
    second := s.Resume(Some(name));
  }
}
