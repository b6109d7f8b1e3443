/**
 * The installer's steps over an abstract environment (install_env.py).
 *
 * A `Session` holds what the steps change: the text of the log file, the
 * commands handed to the shell through `run`, and whether the virtual
 * environment directory exists. What the steps only observe comes in from
 * outside: the outcome of every command, whether `pip show` finds a
 * package, the lines of the requirements file and the `pip freeze` listing.
 *
 * Each step is specified by an `Effect`, the commands it issues and the
 * messages it logs, computed by a pure function of its inputs; the methods
 * of `Session` are proved to append exactly that effect to the state.
 */
module Installer {
  import opened Text
  import opened Seqs
  import opened Requirements

  const LOG_FILE := "logs/install_log.txt"
  const VENV_PATH := ".venv"
  const PYTHON_VENV := ".venv\\Scripts\\python.exe"

  /** A command as `subprocess.run` gets it: one shell line, or an argument vector. */
  datatype Command = Shell(line: string) | Argv(args: seq<string>)

  /** What `subprocess.run` reports back. */
  datatype Completed = Completed(returnCode: int, stdout: string, stderr: string)

  /** The environment the installer observes but does not change. */
  datatype World = World(
    executable: string,                // `sys.executable`
    timestamp: string,                 // `datetime.now()` as `%d/%m/%Y %H:%M:%S`
    shown: string -> bool,             // whether `pip show <name>` exits with 0
    requirementLines: seq<string>,     // the lines of requirements.txt
    listing: string,                   // installed.txt after `pip freeze`
    outcome: Command -> Completed)     // what running each command reports

  // ---------------------------------------------------------------------------
  // Messages and commands
  // ---------------------------------------------------------------------------

  const MSG_VENV_CREATE := "Creazione ambiente virtuale..."
  const MSG_VENV_EXISTS := "Ambiente virtuale esistente, salto creazione..."
  const MSG_UPGRADE_PIP := "Aggiornamento pip..."
  const MSG_TORCH_PRESENT := "\U{2705} PyTorch stack gi\U{E0} installato, salto..."
  const MSG_TORCH_INSTALL := "\U{1F9E9} Installazione PyTorch stack (CUDA 12.1)..."
  const MSG_TORCH_DONE := "Installazione PyTorch stack completata."
  const MSG_CHECK := "Controllo pacchetti mancanti o obsoleti..."
  const MSG_QUEUE := "Pacchetti da installare o aggiornare: "
  const MSG_REQUIREMENTS_DONE := "Installazione pacchetti mancanti/obsoleti completata."
  const MSG_UP_TO_DATE := "\U{2705} Tutti i pacchetti richiesti sono gi\U{E0} aggiornati!"
  const MSG_FINISHED := "\U{2705} Installazione completata!\n"

  function Header(timestamp: string): string {
    "\n====== LOG INSTALLAZIONE (" + timestamp + ") ======"
  }

  function VenvCommand(executable: string): Command {
    Shell(executable + " -m venv " + VENV_PATH)
  }

  const UPGRADE_PIP := Shell(PYTHON_VENV + " -m pip install --upgrade pip")
  const FREEZE := Shell(PIP_EXE + " freeze > installed.txt")

  const TORCH_PINS := ["torch==2.5.1+cu121", "torchaudio==2.5.1+cu121", "torchvision==0.20.1+cu121"]
  const TORCH_INDEX := ["--extra-index-url", "https://download.pytorch.org/whl/cu121"]
  const TORCH_INSTALL := Argv([PYTHON_VENV, "-m", "pip", "install", "--upgrade", "--no-cache-dir"] + TORCH_PINS + TORCH_INDEX)

  // ---------------------------------------------------------------------------
  // The log file
  // ---------------------------------------------------------------------------

  /** What a run of `log` calls appends to the log file: each message followed by a newline. */
  function LogText(messages: seq<string>): string
    decreases |messages|
  {
    if messages == [] then [] else messages[0] + "\n" + LogText(messages[1..])
  }

  /** Logging two runs of messages appends their texts one after the other. */
  lemma {:induction false} LogTextAppend(a: seq<string>, b: seq<string>)
    ensures LogText(a + b) == LogText(a) + LogText(b)
    decreases |a|
  {
    if a == [] {
      assert a + b == b;
    } else {
      assert (a + b)[0] == a[0];
      assert (a + b)[1..] == a[1..] + b;
      LogTextAppend(a[1..], b);
    }
  }

  lemma LogTextOne(m: string)
    ensures LogText([m]) == m + "\n"
  {
    assert [m][1..] == [];
  }

  /** The log text is the messages joined by newlines, with a final newline. */
  lemma {:induction false} LogTextIsJoin(messages: seq<string>)
    ensures LogText(messages) == Join(messages + [""], "\n")
    decreases |messages|
  {
    if messages == [] {
      assert messages + [""] == [""];
    } else {
      var rest := messages[1..];
      LogTextIsJoin(rest);
      assert messages + [""] == [messages[0]] + (rest + [""]);
      JoinCons(messages[0], rest + [""], "\n");
    }
  }

  /** Reading the log back line by line gives the messages, then the empty text after the last newline. */
  lemma LogTextLines(messages: seq<string>)
    requires forall k :: 0 <= k < |messages| ==> '\n' !in messages[k]
    ensures Split(LogText(messages), "\n") == messages + [""]
  {
    LogTextIsJoin(messages);
    var lines := messages + [""];
    forall k | 0 <= k < |lines| ensures "\n"[0] !in lines[k] {
      if k < |messages| {
        assert lines[k] == messages[k];
      }
    }
    SplitJoin(lines, "\n");
  }

  // ---------------------------------------------------------------------------
  // Effects
  // ---------------------------------------------------------------------------

  /** The commands a step hands to the shell and the messages it logs, in order. */
  datatype Effect = Effect(commands: seq<Command>, messages: seq<string>)

  /** One step, then another. */
  function Then(e1: Effect, e2: Effect): Effect {
    Effect(e1.commands + e2.commands, e1.messages + e2.messages)
  }

  function LogEffect(message: string): Effect {
    Effect([], [message])
  }

  /** Going from the first log text and command list to the second appends exactly the effect `e`. */
  predicate Appended(log0: string, cmds0: seq<Command>, log1: string, cmds1: seq<Command>, e: Effect) {
    log1 == log0 + LogText(e.messages) && cmds1 == cmds0 + e.commands
  }

  /** Logging the three pieces of `run` and issuing its command appends the effect of `run`. */
  lemma RunAppended(log0: string, cmds0: seq<Command>, log1: string, cmd: Command, description: Option<string>, result: Completed)
    requires log1 == log0 + Line(Described(description)) + Line(Strip(result.stdout)) + Line(Strip(result.stderr))
    ensures Appended(log0, cmds0, log1, cmds0 + [cmd], RunEffect(cmd, description, result))
  {
    RunLogText(description, result);
    Regroup(log0, Line(Described(description)), Line(Strip(result.stdout)), Line(Strip(result.stderr)));
  }

  lemma Assoc<T>(a: seq<T>, b: seq<T>, c: seq<T>)
    ensures a + b + c == a + (b + c)
  {
  }

  lemma Regroup(a: string, b: string, c: string, d: string)
    ensures a + b + c + d == a + (b + c + d)
  {
  }

  lemma AppendedLog(log0: string, cmds0: seq<Command>, message: string)
    ensures Appended(log0, cmds0, log0 + message + "\n", cmds0, LogEffect(message))
  {
    LogTextOne(message);
  }

  /** Appending one effect and then another appends the two in sequence. */
  lemma AppendedThen(log0: string, cmds0: seq<Command>, log1: string, cmds1: seq<Command>,
                     log2: string, cmds2: seq<Command>, e1: Effect, e2: Effect)
    requires Appended(log0, cmds0, log1, cmds1, e1)
    requires Appended(log1, cmds1, log2, cmds2, e2)
    ensures Appended(log0, cmds0, log2, cmds2, Then(e1, e2))
  {
    LogTextAppend(e1.messages, e2.messages);
    Assoc(log0, LogText(e1.messages), LogText(e2.messages));
    Assoc(cmds0, e1.commands, e2.commands);
  }

  function NotEmpty(m: string): bool {
    m != []
  }

  function Described(description: Option<string>): string {
    if description.Some? then description.value else []
  }

  /** The messages `run` logs: of the description, the stripped output and the stripped errors, those that are not empty. */
  function RunMessages(description: Option<string>, result: Completed): seq<string> {
    Filter([Described(description), Strip(result.stdout), Strip(result.stderr)], NotEmpty)
  }

  /** `run` logs at most three messages, none empty, in the order description, output, errors, and leaves out only empty ones. */
  lemma RunMessagesShape(description: Option<string>, result: Completed)
    ensures var parts := [Described(description), Strip(result.stdout), Strip(result.stderr)];
      var ms := RunMessages(description, result);
      && |ms| <= 3
      && (forall m :: m in ms <==> m in parts && m != [])
      && IsSubsequence(ms, parts)
  {
    var parts := [Described(description), Strip(result.stdout), Strip(result.stderr)];
    forall m ensures m in RunMessages(description, result) <==> m in parts && m != [] {
      FilterMembers(parts, NotEmpty, m);
    }
    FilterIsSubsequence(parts, NotEmpty);
  }

  /** A message's line in the log file, or nothing for an empty message. */
  function Line(m: string): string {
    if m == [] then [] else m + "\n"
  }

  /** Logging whichever of three messages are not empty appends their lines in order. */
  lemma NonEmptyLogText(a: string, b: string, c: string)
    ensures LogText(Filter([a, b, c], NotEmpty)) == Line(a) + Line(b) + Line(c)
  {
    assert [a, b, c] == [a] + [b] + [c];
    FilterAppend([a] + [b], [c], NotEmpty);
    FilterAppend([a], [b], NotEmpty);
    FilterOne(a, NotEmpty);
    FilterOne(b, NotEmpty);
    FilterOne(c, NotEmpty);
    var fa, fb, fc := Filter([a], NotEmpty), Filter([b], NotEmpty), Filter([c], NotEmpty);
    LogTextAppend(fa + fb, fc);
    LogTextAppend(fa, fb);
    LogTextOne(a);
    LogTextOne(b);
    LogTextOne(c);
  }

  /** What `run` appends to the log file, piece by piece. */
  lemma RunLogText(description: Option<string>, result: Completed)
    ensures LogText(RunMessages(description, result)) ==
      Line(Described(description)) + Line(Strip(result.stdout)) + Line(Strip(result.stderr))
  {
    NonEmptyLogText(Described(description), Strip(result.stdout), Strip(result.stderr));
  }

  function RunEffect(cmd: Command, description: Option<string>, result: Completed): Effect {
    Effect([cmd], RunMessages(description, result))
  }

  /** `ensure_venv`: create the environment only when its directory does not exist. */
  function VenvEffect(present: bool, executable: string, result: Completed): Effect {
    if present then LogEffect(MSG_VENV_EXISTS)
    else Then(LogEffect(MSG_VENV_CREATE), RunEffect(VenvCommand(executable), None, result))
  }

  /** `upgrade_pip`. */
  function UpgradeEffect(result: Completed): Effect {
    Then(LogEffect(MSG_UPGRADE_PIP), RunEffect(UPGRADE_PIP, None, result))
  }

  /** The three packages `install_pytorch_stack` asks `pip show` about, all found. */
  predicate TorchStackShown(shown: string -> bool) {
    shown("torch") && shown("torchaudio") && shown("torchvision")
  }

  /** `install_pytorch_stack`: skip when all three packages are found, otherwise one pinned install. */
  function TorchEffect(shown: string -> bool, result: Completed): Effect {
    if TorchStackShown(shown) then LogEffect(MSG_TORCH_PRESENT)
    else Then(LogEffect(MSG_TORCH_INSTALL), RunEffect(TORCH_INSTALL, Some(MSG_TORCH_DONE), result))
  }

  /** The requirements `smart_install_requirements` queues. */
  function Queue(lines: seq<string>, listing: string): seq<string> {
    Missing(ParseRequirements(lines), listing)
  }

  /** `smart_install_requirements`: freeze, then one combined install of the queue, or the up-to-date line. */
  function ReconcileEffect(lines: seq<string>, listing: string, outcome: Command -> Completed): Effect {
    var queue := Queue(lines, listing);
    var check := Then(LogEffect(MSG_CHECK), RunEffect(FREEZE, None, outcome(FREEZE)));
    if queue != [] then
      var cmd := Shell(InstallCommand(queue));
      Then(check, Then(LogEffect(MSG_QUEUE + ReprList(queue)), RunEffect(cmd, Some(MSG_REQUIREMENTS_DONE), outcome(cmd))))
    else
      Then(check, LogEffect(MSG_UP_TO_DATE))
  }

  /** The shape of `main`: a header line, four steps in order, and a closing line. */
  function MainEffect(header: string, venv: Effect, upgrade: Effect, torch: Effect, reconcile: Effect, closing: string): Effect {
    Then(LogEffect(header), Then(venv, Then(upgrade, Then(torch, Then(reconcile, LogEffect(closing))))))
  }

  /** `main`: the header, the four steps in order, and the closing line. */
  function InstallEffect(w: World, present: bool): Effect {
    MainEffect(Header(w.timestamp),
               VenvEffect(present, w.executable, w.outcome(VenvCommand(w.executable))),
               UpgradeEffect(w.outcome(UPGRADE_PIP)),
               TorchEffect(w.shown, w.outcome(TORCH_INSTALL)),
               ReconcileEffect(w.requirementLines, w.listing, w.outcome),
               MSG_FINISHED)
  }

  /** Whether the environment directory exists after `ensure_venv`: it did already, or creating it succeeded. */
  function VenvAfter(present: bool, result: Completed): bool {
    present || result.returnCode == 0
  }

  // ---------------------------------------------------------------------------
  // What the effects promise
  // ---------------------------------------------------------------------------

  /** The creation command is issued exactly when the directory is missing, and then only it. */
  lemma VenvCreatedOnlyWhenMissing(present: bool, executable: string, result: Completed)
    ensures VenvCommand(executable) in VenvEffect(present, executable, result).commands <==> !present
    ensures |VenvEffect(present, executable, result).commands| <= 1
  {
  }

  /** Once creation has succeeded, running `ensure_venv` again issues nothing and logs only the skip line. */
  lemma VenvSecondCallSkips(present: bool, executable: string, result: Completed, again: Completed)
    requires VenvAfter(present, result)
    ensures VenvEffect(VenvAfter(present, result), executable, again) == Effect([], [MSG_VENV_EXISTS])
  {
  }

  /** The pinned install is issued exactly when some package of the stack is not found, and then once. */
  lemma TorchInstalledOnlyWhenMissing(shown: string -> bool, result: Completed)
    ensures var cs := TorchEffect(shown, result).commands;
      && (cs == [] <==> TorchStackShown(shown))
      && (cs != [] ==> cs == [TORCH_INSTALL])
  {
  }

  /** The pinned install names the three CUDA 12.1 builds and the CUDA 12.1 package index. */
  lemma TorchInstallPins()
    ensures TORCH_INSTALL.Argv?
    ensures forall p :: p in TORCH_PINS ==> p in TORCH_INSTALL.args
    ensures TORCH_INSTALL.args[|TORCH_INSTALL.args| - 2..] == TORCH_INDEX
  {
    var args := TORCH_INSTALL.args;
    var head := [PYTHON_VENV, "-m", "pip", "install", "--upgrade", "--no-cache-dir"];
    assert args == head + TORCH_PINS + TORCH_INDEX;
    forall p | p in TORCH_PINS ensures p in args {
      var k :| 0 <= k < |TORCH_PINS| && TORCH_PINS[k] == p;
      assert args[|head| + k] == p;
    }
  }

  /** Reconciling freezes first, then issues one combined install exactly when something is queued. */
  lemma ReconcileCommands(lines: seq<string>, listing: string, outcome: Command -> Completed)
    ensures var cs := ReconcileEffect(lines, listing, outcome).commands;
      && cs[0] == FREEZE
      && (Queue(lines, listing) == [] <==> |cs| == 1)
      && (Queue(lines, listing) != [] ==> |cs| == 2 && cs[1] == Shell(InstallCommand(Queue(lines, listing))))
  {
  }

  /** The install command names exactly the queued requirements, in order, after the fixed flags. */
  lemma ReconcileInstallWords(lines: seq<string>, listing: string, outcome: Command -> Completed)
    requires forall k :: 0 <= k < |lines| ==> ' ' !in Strip(lines[k])
    requires Queue(lines, listing) != []
    ensures var cs := ReconcileEffect(lines, listing, outcome).commands;
      && |cs| == 2 && cs[1].Shell?
      && Split(cs[1].line, " ") == [PIP_EXE] + INSTALL_FLAGS + Queue(lines, listing)
  {
    var queue := Queue(lines, listing);
    var reqs := ParseRequirements(lines);
    forall k | 0 <= k < |queue| ensures ' ' !in queue[k] {
      MissingMembers(reqs, listing, queue[k]);
      ParseMembers(lines, queue[k]);
    }
    ReconcileCommands(lines, listing, outcome);
    InstallCommandWords(queue);
  }

  /** When nothing is queued, reconciling logs the check, the freeze output and the up-to-date line, and nothing else. */
  lemma ReconcileUpToDate(lines: seq<string>, listing: string, outcome: Command -> Completed)
    requires Queue(lines, listing) == []
    ensures ReconcileEffect(lines, listing, outcome).messages ==
      [MSG_CHECK] + RunMessages(None, outcome(FREEZE)) + [MSG_UP_TO_DATE]
  {
  }

  /**
   * Reconciling again against a listing that extends the first and shows the
   * names of everything the first run queued queues nothing.
   */
  lemma ReconcileTwiceQueuesNothing(lines: seq<string>, listing: string, after: string)
    requires Contains(after, listing)
    requires forall r :: r in Queue(lines, listing) ==> Contains(Lower(after), Lower(BareName(r)))
    ensures Queue(lines, after) == []
  {
    var reqs := ParseRequirements(lines);
    forall k | 0 <= k < |reqs| ensures !NeedsInstallIn(after)(reqs[k]) {
      var r := reqs[k];
      if NeedsInstall(r, listing) {
        MissingMembers(reqs, listing, r);
      } else if NeedsInstall(r, after) {
        NeedsInstallAntitone(r, listing, after);
      }
    }
    FilterNone(reqs, NeedsInstallIn(after));
  }

  /** The commands of `main` are those of its steps; its messages are the header, the steps' messages and the closing line. */
  lemma MainShape(header: string, venv: Effect, upgrade: Effect, torch: Effect, reconcile: Effect, closing: string)
    ensures MainEffect(header, venv, upgrade, torch, reconcile, closing).commands ==
      venv.commands + upgrade.commands + torch.commands + reconcile.commands
    ensures MainEffect(header, venv, upgrade, torch, reconcile, closing).messages ==
      [header] + venv.messages + upgrade.messages + torch.messages + reconcile.messages + [closing]
  {
    var e := MainEffect(header, venv, upgrade, torch, reconcile, closing);
    assert e.commands == [] + (venv.commands + (upgrade.commands + (torch.commands + (reconcile.commands + []))));
    assert e.messages == [header] + (venv.messages + (upgrade.messages + (torch.messages + (reconcile.messages + [closing]))));
  }

  lemma Framed<T>(first: T, middle: seq<T>, last: T)
    ensures var s := [first] + middle + [last];
      |s| >= 2 && s[0] == first && s[|s| - 1] == last
  {
  }

  /** A whole run logs the header first and the closing line last. */
  lemma InstallFramed(w: World, present: bool)
    ensures var ms := InstallEffect(w, present).messages;
      && |ms| >= 2 && ms[0] == Header(w.timestamp) && ms[|ms| - 1] == MSG_FINISHED
  {
    var venv := VenvEffect(present, w.executable, w.outcome(VenvCommand(w.executable)));
    var upgrade := UpgradeEffect(w.outcome(UPGRADE_PIP));
    var torch := TorchEffect(w.shown, w.outcome(TORCH_INSTALL));
    var reconcile := ReconcileEffect(w.requirementLines, w.listing, w.outcome);
    MainShape(Header(w.timestamp), venv, upgrade, torch, reconcile, MSG_FINISHED);
    Framed(Header(w.timestamp), venv.messages + upgrade.messages + torch.messages + reconcile.messages, MSG_FINISHED);
  }

  /** `x` comes before `y` in `a + [x] + b + c` when `c` starts with `y`. */
  lemma BeforeInChain<T>(a: seq<T>, x: T, b: seq<T>, c: seq<T>, y: T)
    requires c != [] && c[0] == y
    ensures exists i, j :: 0 <= i < j < |a + [x] + b + c| && (a + [x] + b + c)[i] == x && (a + [x] + b + c)[j] == y
  {
    var s := a + [x] + b + c;
    assert s[|a|] == x;
    assert s[|a| + 1 + |b|] == y;
  }

  /** The commands of a whole run are those of its four steps, in order. */
  lemma InstallCommandsAre(w: World, present: bool)
    ensures InstallEffect(w, present).commands ==
      VenvEffect(present, w.executable, w.outcome(VenvCommand(w.executable))).commands
      + [UPGRADE_PIP]
      + TorchEffect(w.shown, w.outcome(TORCH_INSTALL)).commands
      + ReconcileEffect(w.requirementLines, w.listing, w.outcome).commands
  {
    var venv := VenvEffect(present, w.executable, w.outcome(VenvCommand(w.executable)));
    var upgrade := UpgradeEffect(w.outcome(UPGRADE_PIP));
    var torch := TorchEffect(w.shown, w.outcome(TORCH_INSTALL));
    var reconcile := ReconcileEffect(w.requirementLines, w.listing, w.outcome);
    MainShape(Header(w.timestamp), venv, upgrade, torch, reconcile, MSG_FINISHED);
    assert upgrade.commands == [UPGRADE_PIP];
  }

  /** A whole run always upgrades pip and freezes, in that order, and issues two to five commands. */
  lemma InstallCommandsOrder(w: World, present: bool)
    ensures var cs := InstallEffect(w, present).commands;
      && 2 <= |cs| <= 5
      && exists i, j :: 0 <= i < j < |cs| && cs[i] == UPGRADE_PIP && cs[j] == FREEZE
  {
    var v := VenvEffect(present, w.executable, w.outcome(VenvCommand(w.executable))).commands;
    var t := TorchEffect(w.shown, w.outcome(TORCH_INSTALL)).commands;
    var r := ReconcileEffect(w.requirementLines, w.listing, w.outcome).commands;
    InstallCommandsAre(w, present);
    VenvCreatedOnlyWhenMissing(present, w.executable, w.outcome(VenvCommand(w.executable)));
    TorchInstalledOnlyWhenMissing(w.shown, w.outcome(TORCH_INSTALL));
    ReconcileCommands(w.requirementLines, w.listing, w.outcome);
    BeforeInChain(v, UPGRADE_PIP, t, r, FREEZE);
  }

  /**
   * A run where the environment exists, the stack is found and every
   * requirement's text is in the listing issues only the pip upgrade and the
   * freeze.
   */
  lemma SettledInstallOnlyRefreshes(w: World)
    requires TorchStackShown(w.shown)
    requires forall r :: r in ParseRequirements(w.requirementLines) ==> Contains(Lower(w.listing), Lower(r))
    ensures InstallEffect(w, true).commands == [UPGRADE_PIP, FREEZE]
  {
    var reqs := ParseRequirements(w.requirementLines);
    MissingNoneWhenAllListed(reqs, w.listing);
  }

  // ---------------------------------------------------------------------------
  // The session
  // ---------------------------------------------------------------------------

  class Session {
    /** The text of logs/install_log.txt. */
    var logFile: string
    /** Every command handed to `subprocess.run` through `run`, in order. */
    var issued: seq<Command>
    /** Whether the `.venv` directory exists. */
    var venvPresent: bool

    constructor (existingLog: string, present: bool)
      ensures logFile == existingLog && issued == [] && venvPresent == present
    {
      logFile := existingLog;
      issued := [];
      venvPresent := present;
    }

    /** `log`: append the message and a newline to the log file. */
    method Log(message: string)
      modifies this
      ensures logFile == old(logFile) + message + "\n"
      ensures issued == old(issued) && venvPresent == old(venvPresent)
    {
      logFile := logFile + message + "\n";
    }

    /** `if message: log(message)`. */
    method LogIfNotEmpty(message: string)
      modifies this
      ensures logFile == old(logFile) + Line(message)
      ensures issued == old(issued) && venvPresent == old(venvPresent)
    {
      if message != [] {
        Log(message);
      }
    }

    /** `run`: log the description, issue the command, log its stripped output and errors; true exactly on exit code 0. */
    method Run(cmd: Command, description: Option<string>, outcome: Command -> Completed) returns (ok: bool)
      modifies this
      ensures ok <==> outcome(cmd).returnCode == 0
      ensures Appended(old(logFile), old(issued), logFile, issued, RunEffect(cmd, description, outcome(cmd)))
      ensures venvPresent == old(venvPresent)
    {
      var result := outcome(cmd);
      ghost var log0, cmds0 := logFile, issued;
      LogIfNotEmpty(Described(description));
      issued := issued + [cmd];
      LogIfNotEmpty(Strip(result.stdout));
      LogIfNotEmpty(Strip(result.stderr));
      RunAppended(log0, cmds0, logFile, cmd, description, result);
      ok := result.returnCode == 0;
    }

    /** `ensure_venv`. */
    method EnsureVenv(executable: string, outcome: Command -> Completed)
      modifies this
      ensures Appended(old(logFile), old(issued), logFile, issued,
                       VenvEffect(old(venvPresent), executable, outcome(VenvCommand(executable))))
      ensures venvPresent == VenvAfter(old(venvPresent), outcome(VenvCommand(executable)))
    {
      ghost var log0, cmds0 := logFile, issued;
      if !venvPresent {
        Log(MSG_VENV_CREATE);
        AppendedLog(log0, cmds0, MSG_VENV_CREATE);
        ghost var log1, cmds1 := logFile, issued;
        var ok := Run(VenvCommand(executable), None, outcome);
        AppendedThen(log0, cmds0, log1, cmds1, logFile, issued,
                     LogEffect(MSG_VENV_CREATE), RunEffect(VenvCommand(executable), None, outcome(VenvCommand(executable))));
        venvPresent := ok;
      } else {
        Log(MSG_VENV_EXISTS);
        AppendedLog(log0, cmds0, MSG_VENV_EXISTS);
      }
    }

    /** `upgrade_pip`. */
    method UpgradePip(outcome: Command -> Completed)
      modifies this
      ensures Appended(old(logFile), old(issued), logFile, issued, UpgradeEffect(outcome(UPGRADE_PIP)))
      ensures venvPresent == old(venvPresent)
    {
      ghost var log0, cmds0 := logFile, issued;
      Log(MSG_UPGRADE_PIP);
      AppendedLog(log0, cmds0, MSG_UPGRADE_PIP);
      ghost var log1, cmds1 := logFile, issued;
      var _ := Run(UPGRADE_PIP, None, outcome);
      AppendedThen(log0, cmds0, log1, cmds1, logFile, issued,
                   LogEffect(MSG_UPGRADE_PIP), RunEffect(UPGRADE_PIP, None, outcome(UPGRADE_PIP)));
    }

    /** `install_pytorch_stack`; `shown` answers the three `pip show` queries. */
    method InstallPytorchStack(shown: string -> bool, outcome: Command -> Completed)
      modifies this
      ensures Appended(old(logFile), old(issued), logFile, issued, TorchEffect(shown, outcome(TORCH_INSTALL)))
      ensures venvPresent == old(venvPresent)
    {
      ghost var log0, cmds0 := logFile, issued;
      var torchOk := shown("torch");
      var torchaudioOk := shown("torchaudio");
      var torchvisionOk := shown("torchvision");
      if torchOk && torchaudioOk && torchvisionOk {
        Log(MSG_TORCH_PRESENT);
        AppendedLog(log0, cmds0, MSG_TORCH_PRESENT);
      } else {
        Log(MSG_TORCH_INSTALL);
        AppendedLog(log0, cmds0, MSG_TORCH_INSTALL);
        ghost var log1, cmds1 := logFile, issued;
        var _ := Run(TORCH_INSTALL, Some(MSG_TORCH_DONE), outcome);
        AppendedThen(log0, cmds0, log1, cmds1, logFile, issued,
                     LogEffect(MSG_TORCH_INSTALL), RunEffect(TORCH_INSTALL, Some(MSG_TORCH_DONE), outcome(TORCH_INSTALL)));
      }
    }

    /** `smart_install_requirements`; `lines` are the lines of requirements.txt and `listing` the text of installed.txt. */
    method SmartInstallRequirements(lines: seq<string>, listing: string, outcome: Command -> Completed)
      modifies this
      ensures Appended(old(logFile), old(issued), logFile, issued, ReconcileEffect(lines, listing, outcome))
      ensures venvPresent == old(venvPresent)
    {
      ghost var log0, cmds0 := logFile, issued;
      Log(MSG_CHECK);
      AppendedLog(log0, cmds0, MSG_CHECK);
      ghost var log1, cmds1 := logFile, issued;
      var _ := Run(FREEZE, None, outcome);
      ghost var check := Then(LogEffect(MSG_CHECK), RunEffect(FREEZE, None, outcome(FREEZE)));
      AppendedThen(log0, cmds0, log1, cmds1, logFile, issued, LogEffect(MSG_CHECK), RunEffect(FREEZE, None, outcome(FREEZE)));
      ghost var log2, cmds2 := logFile, issued;

      var requirements := ParseRequirements(lines);
      var toInstall := SelectMissing(requirements, listing);
      if toInstall != [] {
        var message := MSG_QUEUE + ReprList(toInstall);
        Log(message);
        AppendedLog(log2, cmds2, message);
        ghost var log3, cmds3 := logFile, issued;
        var cmd := InstallCommand(toInstall);
        var _ := Run(Shell(cmd), Some(MSG_REQUIREMENTS_DONE), outcome);
        ghost var run := RunEffect(Shell(cmd), Some(MSG_REQUIREMENTS_DONE), outcome(Shell(cmd)));
        AppendedThen(log2, cmds2, log3, cmds3, logFile, issued, LogEffect(message), run);
        AppendedThen(log0, cmds0, log2, cmds2, logFile, issued, check, Then(LogEffect(message), run));
      } else {
        Log(MSG_UP_TO_DATE);
        AppendedLog(log2, cmds2, MSG_UP_TO_DATE);
        AppendedThen(log0, cmds0, log2, cmds2, logFile, issued, check, LogEffect(MSG_UP_TO_DATE));
      }
    }

    /** `main`: one whole installation run against the world `w`. */
    method Install(w: World)
      modifies this
      ensures Appended(old(logFile), old(issued), logFile, issued, InstallEffect(w, old(venvPresent)))
      ensures venvPresent == VenvAfter(old(venvPresent), w.outcome(VenvCommand(w.executable)))
    {
      ghost var header := LogEffect(Header(w.timestamp));
      ghost var venv := VenvEffect(venvPresent, w.executable, w.outcome(VenvCommand(w.executable)));
      ghost var upgrade := UpgradeEffect(w.outcome(UPGRADE_PIP));
      ghost var torch := TorchEffect(w.shown, w.outcome(TORCH_INSTALL));
      ghost var reconcile := ReconcileEffect(w.requirementLines, w.listing, w.outcome);
      ghost var finished := LogEffect(MSG_FINISHED);

      ghost var log0, cmds0 := logFile, issued;
      Log(Header(w.timestamp));
      AppendedLog(log0, cmds0, Header(w.timestamp));
      ghost var log1, cmds1 := logFile, issued;
      EnsureVenv(w.executable, w.outcome);
      ghost var log2, cmds2 := logFile, issued;
      UpgradePip(w.outcome);
      ghost var log3, cmds3 := logFile, issued;
      InstallPytorchStack(w.shown, w.outcome);
      ghost var log4, cmds4 := logFile, issued;
      SmartInstallRequirements(w.requirementLines, w.listing, w.outcome);
      ghost var log5, cmds5 := logFile, issued;
      Log(MSG_FINISHED);
      AppendedLog(log5, cmds5, MSG_FINISHED);

      AppendedThen(log4, cmds4, log5, cmds5, logFile, issued, reconcile, finished);
      AppendedThen(log3, cmds3, log4, cmds4, logFile, issued, torch, Then(reconcile, finished));
      AppendedThen(log2, cmds2, log3, cmds3, logFile, issued, upgrade, Then(torch, Then(reconcile, finished)));
      AppendedThen(log1, cmds1, log2, cmds2, logFile, issued, venv, Then(upgrade, Then(torch, Then(reconcile, finished))));
      AppendedThen(log0, cmds0, log1, cmds1, logFile, issued, header, Then(venv, Then(upgrade, Then(torch, Then(reconcile, finished)))));
    }
  }
}
