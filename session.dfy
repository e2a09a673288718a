/** The `Client` object: the collector's buffer, the stored configuration
    and whether a terminal process has been spawned, with the synchronous
    outcomes of `_collectData`, `connect` and `end`. */
module Session {
  import opened Wrappers
  import opened JsStrings
  import opened Collector
  import opened Invocation

  /** What `connect` does before it waits for the first response: it either
      rejects with a message or spawns `sftp` with an argument vector. */
  datatype ConnectOutcome = Rejected(reason: string) | Spawned(args: seq<Value>)

  /** What `end` does: resolve at once, or send the exit command and wait
      for the process to exit. */
  datatype EndOutcome = Resolved(value: bool) | ExitSent(command: string)

  const ExitCommand: string := "exit\r"

  class Client {
    /** Whether `this.sftp` holds a terminal process. */
    var sftp: bool
    /** `this.config`; None is the empty object `{}`. */
    var config: Option<Config>
    /** `this._collector`, the text buffered since the last response. */
    var collector: string

    constructor ()
      ensures !sftp && config == None && collector == ""
    {
      sftp := false;
      config := None;
      collector := "";
    }

    /** `_collectData`: one chunk of terminal output. */
    method CollectData(chunk: string) returns (e: Event)
      modifies this`collector
      ensures Transition(e, collector) == Step(old(collector), chunk)
      ensures EndsWith(chunk, PasswordPrompt) ==> e == Password && collector == old(collector)
      ensures IsPromptChunk(chunk) ==>
        e == Response(Split(old(collector) + chunk, LineEnd)) && collector == ""
      ensures !EndsWith(chunk, PasswordPrompt) && !EndsWith(chunk, CommandPrompt) ==>
        e == NoEvent && collector == old(collector) + chunk
    {
      if EndsWith(chunk, PasswordPrompt) {
        e := Password;
      } else if EndsWith(chunk, CommandPrompt) {
        collector := collector + chunk;
        var lines := Split(collector, LineEnd);
        collector := "";
        e := Response(lines);
      } else {
        collector := collector + chunk;
        e := NoEvent;
      }
    }

    /** The synchronous part of `connect`. `spawnError` stands for
        `pty.spawn`: Some(message) when it throws. */
    method Connect(raw: RawConfig, spawnError: Option<string>) returns (outcome: ConnectOutcome)
      modifies this`config, this`sftp
      ensures collector == old(collector)
      ensures raw.privateKey.KeyBuffer? ==>
        outcome == Rejected(KeyError) && config == Some(Normalise(raw)) && sftp == old(sftp)
      ensures !raw.privateKey.KeyBuffer? ==> config == Some(Configure(raw).value)
      ensures !raw.privateKey.KeyBuffer? && spawnError.Some? ==>
        outcome == Rejected(spawnError.value) && sftp == old(sftp)
      ensures !raw.privateKey.KeyBuffer? && spawnError.None? ==>
        outcome.Spawned? && sftp && |outcome.args| >= 2 &&
        outcome.args[0] == Str("-q") &&
        outcome.args[|outcome.args| - 1] == Str(Destination(config.value)) &&
        ParseArgs(outcome.args) == Some(Requested(config.value))
    {
      var cfg := Normalise(raw);
      config := Some(cfg);
      if KeyTruthy(raw.privateKey) {
        if raw.privateKey.KeyBuffer? {
          return Rejected(KeyError);
        }
        cfg := cfg.(privateKey := Some(raw.privateKey.v));
        config := Some(cfg);
      }
      var args := BuildArgs(cfg);
      if spawnError.Some? {
        return Rejected(spawnError.value);
      }
      sftp := true;
      outcome := Spawned(args);
    }

    /** `end`: without a process it resolves `true` at once; with one it
        writes the exit command and resolves when the process exits. */
    method End() returns (outcome: EndOutcome)
      ensures !sftp ==> outcome == Resolved(true)
      ensures sftp ==> outcome == ExitSent(ExitCommand)
    {
      if sftp {
        outcome := ExitSent(ExitCommand);
      } else {
        outcome := Resolved(true);
      }
    }
  }

  /** A login as a caller sees it: the password prompt is answered out of
      band and not buffered, and the first prompt completes a response made
      of everything buffered before it. */
  method LoginScenario() {
    var client := new Client();
    var ended := client.End();
    assert ended == Resolved(true);
    var e := client.CollectData(PasswordPrompt);
    assert e == Password && client.collector == "";
    e := client.CollectData("ok\r");
    assert e == NoEvent && client.collector == "ok\r";
    var lines := ["ok", CommandPrompt];
    assert LineEnd !in lines[0] && LineEnd !in lines[1];
    assert Join(lines, LineEnd) == "ok\r" + CommandPrompt;
    SplitJoin(lines, LineEnd);
    e := client.CollectData(CommandPrompt);
    assert e == Response(lines) && client.collector == "";
  }
}
